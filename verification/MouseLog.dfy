/** What a program gets to read of the mouse, from the events alone. */
module MouseLog {
  import opened LittleEndian
  import opened MouseQueue

  /** Position and buttons as the events say. */
  datatype Seen = Seen(x: int, y: int, left: bool, middle: bool, right: bool)

  function SeenOf(m: Mouse): Seen {
    Seen(m.x, m.y, m.buttons.left, m.buttons.middle, m.buttons.right)
  }

  /** SDL numbers the buttons 1 left, 2 middle, 3 right. */
  function After(s: Seen, a: Action): Seen {
    match a
    case Moved(x, y) => s.(x := x, y := y)
    case Clicked(sdl, down) =>
      if sdl == 1 then s.(left := down) else if sdl == 2 then s.(middle := down)
      else if sdl == 3 then s.(right := down) else s
    case _ => s
  }

  function Moves(ofs: nat, from: int, to: int): seq<Record> {
    if from == to then [] else [Record(ofs, (to - from) % 0x1_0000_0000)]
  }

  function Presses(ofs: nat, was: bool, down: bool): seq<Record> {
    if was == down then [] else [Record(ofs, if down then 0x80 else 0)]
  }

  /** The axes are at offsets 0 and 4, the buttons at 12, 13 for the right one and 14
      for the middle one. */
  function Changes(s: Seen, a: Action): seq<Record> {
    match a
    case Moved(x, y) => Moves(0, s.x, x) + Moves(4, s.y, y)
    case Clicked(sdl, down) =>
      if sdl == 1 then Presses(12, s.left, down) else if sdl == 2 then Presses(14, s.middle, down)
      else if sdl == 3 then Presses(13, s.right, down) else []
    case _ => []
  }

  function Log(s: Seen, actions: seq<Action>): seq<Record>
    decreases |actions|
  {
    if actions == [] then [] else Changes(s, actions[0]) + Log(After(s, actions[0]), actions[1..])
  }

  function Last(s: Seen, actions: seq<Action>): Seen
    decreases |actions|
  {
    if actions == [] then s else Last(After(s, actions[0]), actions[1..])
  }

  lemma MotionAdds(m: Mouse, x: int, y: int)
    ensures SeenOf(Motion(m, x, y)) == After(SeenOf(m), Moved(x, y))
    ensures Motion(m, x, y).queue == m.queue + Changes(SeenOf(m), Moved(x, y))
  {
  }

  lemma ButtonAdds(m: Mouse, sdl: nat, down: bool)
    ensures SeenOf(Button(m, sdl, down)) == After(SeenOf(m), Clicked(sdl, down))
    ensures Button(m, sdl, down).queue == m.queue + Changes(SeenOf(m), Clicked(sdl, down))
  {
  }

  lemma OneChange(s: Session, a: Action)
    ensures SeenOf(Next(s, a).mouse) == After(SeenOf(s.mouse), a)
    ensures Next(s, a).drained + Next(s, a).mouse.queue == s.drained + s.mouse.queue + Changes(SeenOf(s.mouse), a)
  {
    var m := s.mouse;
    match a
    case Moved(x, y) =>
      MotionAdds(m, x, y);
      hide Motion, Changes, After, SeenOf;
    case Clicked(sdl, down) =>
      ButtonAdds(m, sdl, down);
      hide Button, Changes, After, SeenOf;
    case Asked(r) =>
      assert m.queue[..Count(m, r)] + m.queue[Count(m, r)..] == m.queue;
    case Polled =>
  }

  lemma {:induction false} PlayLogs(s: Session, actions: seq<Action>)
    ensures SeenOf(Play(s, actions).mouse) == Last(SeenOf(s.mouse), actions)
    ensures Play(s, actions).drained + Play(s, actions).mouse.queue
      == s.drained + s.mouse.queue + Log(SeenOf(s.mouse), actions)
    decreases |actions|
  {
    hide Next, Changes, After;
    if actions == [] {
      assert s.drained + s.mouse.queue + [] == s.drained + s.mouse.queue;
    } else {
      OneChange(s, actions[0]);
      PlayLogs(Next(s, actions[0]), actions[1..]);
      var seen := SeenOf(s.mouse);
      assert s.drained + s.mouse.queue + Changes(seen, actions[0]) + Log(After(seen, actions[0]), actions[1..])
        == s.drained + s.mouse.queue + Log(seen, actions);
    }
  }

  /** In every run: what was drained and what is still queued are together exactly the
      changes the events made, each once and in order, and position and buttons are
      those of the last events. */
  lemma EveryChangeOnce(start: Mouse, actions: seq<Action>)
    requires start.queue == []
    ensures var s := Play(Session(start, [], 0, 0), actions);
      && s.drained + s.mouse.queue == Log(SeenOf(start), actions)
      && SeenOf(s.mouse) == Last(SeenOf(start), actions)
  {
    PlayLogs(Session(start, [], 0, 0), actions);
    assert [] + start.queue + Log(SeenOf(start), actions) == Log(SeenOf(start), actions);
  }

  /** A call delivers the oldest records, as many as are asked for and there: of each
      its offset, its data, a zero and its number, as many as the entry has room for. */
  lemma DeliveredAre(m: Mouse, r: Request, i: nat)
    ensures |Entries(m, r)| == if !r.hasBuffer || r.size == 0 then 0 else Least(r.asked, |m.queue|)
    ensures i < |Entries(m, r)| ==>
      && |Entries(m, r)[i]| == Least(4, r.size / 4)
      && forall k :: 0 <= k < |Entries(m, r)[i]| ==>
           Entries(m, r)[i][k]
             == if k == 0 then m.queue[i].ofs else if k == 1 then m.queue[i].data else if k == 2 then 0 else i
    ensures Drained(m, Asked(r.(peek := false))) == m.queue[..|Entries(m, r)|]
    ensures Drained(m, Asked(r.(peek := true))) == []
  {
    assert Entries(m, r.(peek := false)) == Entries(m, r);
  }

  function Least(a: nat, b: nat): nat {
    if a < b then a else b
  }
}
