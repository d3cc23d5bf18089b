/** DirectInput mouse state and its buffered event queue. */
module MouseQueue {
  import opened LittleEndian

  /** The bits of the button mask. */
  datatype Buttons = Buttons(left: bool, right: bool, middle: bool)

  /** A DIDEVICEOBJECTDATA entry: dwOfs and dwData. */
  datatype Record = Record(ofs: nat, data: Word32)

  datatype Mouse = Mouse(x: int, y: int, buttons: Buttons, lastX: int, lastY: int, queue: seq<Record>)

  const LEFT := 1
  const MIDDLE := 2
  const RIGHT := 3

  /** The offset SDL's button number reports at, 0 for a button not tracked. */
  function ButtonOffset(sdl: nat): nat {
    if sdl == LEFT then 12 else if sdl == RIGHT then 13 else if sdl == MIDDLE then 14 else 0
  }

  function Pressed(b: Buttons, ofs: nat): bool {
    if ofs == 12 then b.left else if ofs == 13 then b.right else b.middle
  }

  function Press(b: Buttons, ofs: nat, down: bool): Buttons {
    if ofs == 12 then b.(left := down) else if ofs == 13 then b.(right := down)
    else if ofs == 14 then b.(middle := down) else b
  }

  function Motion(m: Mouse, x: int, y: int): Mouse {
    var dx, dy := x - m.x, y - m.y;
    m.(x := x, y := y,
       queue := m.queue
         + (if dx != 0 then [Record(0, ToWord(dx))] else [])
         + (if dy != 0 then [Record(4, ToWord(dy))] else []))
  }

  function Button(m: Mouse, sdl: nat, down: bool): Mouse {
    var ofs := ButtonOffset(sdl);
    if ofs == 0 || Pressed(m.buttons, ofs) == down then m
    else m.(buttons := Press(m.buttons, ofs, down), queue := m.queue + [Record(ofs, if down then 0x80 else 0)])
  }

  /** A GetDeviceData call: entry size, whether there is room for entries at all,
      how many are asked for, and whether only to peek. */
  datatype Request = Request(size: nat, hasBuffer: bool, asked: nat, peek: bool)

  /** How many entries a call delivers. */
  function Count(m: Mouse, r: Request): (n: nat)
    ensures n <= |m.queue|
  {
    if !r.hasBuffer || r.size == 0 then 0 else if r.asked < |m.queue| then r.asked else |m.queue|
  }

  function Drain(m: Mouse, r: Request): Mouse {
    if r.peek then m else m.(queue := m.queue[Count(m, r)..])
  }

  /** GetDeviceState: the movement since the last such call. */
  function Poll(m: Mouse): Mouse {
    m.(lastX := m.x, lastY := m.y)
  }

  // ---- Replay ----

  /** What a program that applies the records knows. */
  datatype View = View(x: Word32, y: Word32, buttons: Buttons)

  function Now(m: Mouse): View {
    View(ToWord(m.x), ToWord(m.y), m.buttons)
  }

  function Apply(v: View, r: Record): View {
    if r.ofs == 0 then v.(x := ToWord(v.x + r.data))
    else if r.ofs == 4 then v.(y := ToWord(v.y + r.data))
    else v.(buttons := Press(v.buttons, r.ofs, r.data == 0x80))
  }

  function Replay(v: View, records: seq<Record>): View
    decreases |records|
  {
    if records == [] then v else Replay(Apply(v, records[0]), records[1..])
  }

  lemma {:induction false} ReplayMore(v: View, a: seq<Record>, b: seq<Record>)
    ensures Replay(v, a + b) == Replay(Replay(v, a), b)
    decreases |a|
  {
    if a == [] {
      assert a + b == b;
    } else {
      assert (a + b)[1..] == a[1..] + b;
      ReplayMore(Apply(v, a[0]), a[1..], b);
    }
  }

  lemma AddWords(a: int, d: int)
    ensures ToWord(ToWord(a) + ToWord(d)) == ToWord(a + d)
  {
  }

  datatype Action = Moved(x: int, y: int) | Clicked(sdl: nat, down: bool) | Asked(request: Request) | Polled

  function Step(m: Mouse, a: Action): Mouse {
    match a
    case Moved(x, y) => Motion(m, x, y)
    case Clicked(sdl, down) => Button(m, sdl, down)
    case Asked(request) => Drain(m, request)
    case Polled => Poll(m)
  }

  /** The records a step takes out of the queue. */
  function Drained(m: Mouse, a: Action): seq<Record> {
    if a.Asked? && !a.request.peek then m.queue[..Count(m, a.request)] else []
  }

  /** The movement a step reports. */
  function Reported(m: Mouse, a: Action): (int, int) {
    if a.Polled? then (m.x - m.lastX, m.y - m.lastY) else (0, 0)
  }

  /** A run: what was drained and the movement reported so far go along. */
  datatype Session = Session(mouse: Mouse, drained: seq<Record>, movedX: int, movedY: int)

  function Next(s: Session, a: Action): Session {
    Session(Step(s.mouse, a), s.drained + Drained(s.mouse, a),
            s.movedX + Reported(s.mouse, a).0, s.movedY + Reported(s.mouse, a).1)
  }

  function Play(s: Session, actions: seq<Action>): Session
    decreases |actions|
  {
    if actions == [] then s else Play(Next(s, actions[0]), actions[1..])
  }

  /** Everything drained, then everything queued, replays to the present; the
      reported movement adds up to the last polled position. */
  ghost predicate Faithful(start: Mouse, s: Session) {
    && Replay(Now(start), s.drained + s.mouse.queue) == Now(s.mouse)
    && start.lastX + s.movedX == s.mouse.lastX && start.lastY + s.movedY == s.mouse.lastY
  }

  lemma One(v: View, r: Record)
    ensures Replay(v, [r]) == Apply(v, r)
  {
    assert [r][1..] == [];
  }

  lemma NothingReplays(v: View)
    ensures Replay(v, []) == v
  {
  }

  /** The records of a movement along one axis. */
  function AxisRecords(ofs: nat, d: int): seq<Record> {
    if d != 0 then [Record(ofs, ToWord(d))] else []
  }

  lemma AxisReplays(v: View, from: int, to: int)
    ensures v.x == ToWord(from) ==> Replay(v, AxisRecords(0, to - from)) == v.(x := ToWord(to))
    ensures v.y == ToWord(from) ==> Replay(v, AxisRecords(4, to - from)) == v.(y := ToWord(to))
  {
    AddWords(from, to - from);
    hide ToWord, Replay;
    NothingReplays(v);
    One(v, Record(0, ToWord(to - from)));
    One(v, Record(4, ToWord(to - from)));
  }

  lemma MotionReplays(m: Mouse, x: int, y: int)
    ensures var added := Motion(m, x, y).queue[|m.queue|..];
      Motion(m, x, y).queue == m.queue + added && Replay(Now(m), added) == Now(Motion(m, x, y))
  {
    var first, second := AxisRecords(0, x - m.x), AxisRecords(4, y - m.y);
    assert Motion(m, x, y).queue[|m.queue|..] == first + second;
    hide Replay, ToWord, AxisRecords;
    ReplayMore(Now(m), first, second);
    AxisReplays(Now(m), m.x, x);
    AxisReplays(Replay(Now(m), first), m.y, y);
  }

  lemma ButtonReplays(m: Mouse, sdl: nat, down: bool)
    ensures var added := Button(m, sdl, down).queue[|m.queue|..];
      Button(m, sdl, down).queue == m.queue + added && Replay(Now(m), added) == Now(Button(m, sdl, down))
  {
    var ofs := ButtonOffset(sdl);
    if ofs != 0 && Pressed(m.buttons, ofs) != down {
      One(Now(m), Record(ofs, if down then 0x80 else 0));
      assert Button(m, sdl, down).queue[|m.queue|..] == [Record(ofs, if down then 0x80 else 0)];
    } else {
      assert m.queue[|m.queue|..] == [] && m.queue + [] == m.queue;
    }
  }

  /** Records added to the queue come last in the replay. */
  lemma AddedReplay(v: View, drained: seq<Record>, queue: seq<Record>, added: seq<Record>, now: View, after: View)
    requires Replay(v, drained + queue) == now && Replay(now, added) == after
    ensures Replay(v, drained + [] + (queue + added)) == after
  {
    assert drained + [] + (queue + added) == (drained + queue) + added;
    ReplayMore(v, drained + queue, added);
  }

  lemma NextFaithful(start: Mouse, s: Session, a: Action)
    requires Faithful(start, s)
    ensures Faithful(start, Next(s, a))
  {
    var m := s.mouse;
    match a
    case Moved(x, y) =>
      MotionReplays(m, x, y);
      AddedReplay(Now(start), s.drained, m.queue, Motion(m, x, y).queue[|m.queue|..], Now(m), Now(Motion(m, x, y)));
    case Clicked(sdl, down) =>
      ButtonReplays(m, sdl, down);
      AddedReplay(Now(start), s.drained, m.queue, Button(m, sdl, down).queue[|m.queue|..],
        Now(m), Now(Button(m, sdl, down)));
    case Asked(r) =>
      var n := Count(m, r);
      if r.peek {
        assert s.drained + [] == s.drained;
      } else {
        assert s.drained + m.queue[..n] + m.queue[n..] == s.drained + m.queue;
      }
    case Polled =>
      assert s.drained + [] == s.drained;
  }

  lemma {:induction false} PlayFaithful(start: Mouse, s: Session, actions: seq<Action>)
    requires Faithful(start, s)
    ensures Faithful(start, Play(s, actions))
    decreases |actions|
  {
    hide Next, Faithful;
    if actions != [] {
      NextFaithful(start, s, actions[0]);
      PlayFaithful(start, Next(s, actions[0]), actions[1..]);
    }
  }

  /** In every run from an empty queue: applying the drained and the still queued
      records in order to the starting state gives the current position, modulo
      2^32, and buttons; and the deltas GetDeviceState reported add up to the
      movement up to its last call. */
  lemma QueueReplays(start: Mouse, actions: seq<Action>)
    requires start.queue == []
    ensures var s := Play(Session(start, [], 0, 0), actions);
      && Replay(Now(start), s.drained + s.mouse.queue) == Now(s.mouse)
      && s.movedX == s.mouse.lastX - start.lastX && s.movedY == s.mouse.lastY - start.lastY
  {
    var s := Session(start, [], 0, 0);
    assert [] + start.queue == [];
    assert Replay(Now(start), []) == Now(start);
    PlayFaithful(start, s, actions);
  }

  // ---- The module's state and its functions ----

  /** What one entry gets in guest memory: as many of its four fields as fit. */
  function Entry(r: Record, sequence: nat, size: nat): seq<nat> {
    var fields := [r.ofs, r.data, 0, sequence];
    if size >= 16 then fields else fields[..size / 4]
  }

  /** What a call delivers: the oldest entries, in order. */
  function Entries(m: Mouse, r: Request): (e: seq<seq<nat>>)
    ensures |e| == Count(m, r)
  {
    seq(Count(m, r), i requires 0 <= i < Count(m, r) => Entry(m.queue[i], i, r.size))
  }

  class MouseDevice {
    var x: int
    var y: int
    var buttons: Buttons
    var lastX: int
    var lastY: int
    var queue: seq<Record>

    function State(): Mouse
      reads this
    {
      Mouse(x, y, buttons, lastX, lastY, queue)
    }

    constructor ()
      ensures State() == Mouse(0, 0, Buttons(false, false, false), 0, 0, [])
    {
      x, y, buttons, lastX, lastY, queue := 0, 0, Buttons(false, false, false), 0, 0, [];
    }

    /** signals: whether registered events are set. */
    method NotifyMotion(toX: int, toY: int) returns (signals: bool)
      modifies this
      ensures State() == Motion(old(State()), toX, toY)
      ensures signals <==> |queue| > |old(queue)|
    {
      var dx, dy := toX - x, toY - y;
      x, y := toX, toY;
      if dx == 0 && dy == 0 { return false; }
      if dx != 0 {
        queue := queue + [Record(0, ToWord(dx))];
      }
      if dy != 0 {
        queue := queue + [Record(4, ToWord(dy))];
      }
      signals := true;
    }

    method NotifyButton(sdl: nat, down: bool) returns (signals: bool)
      modifies this
      ensures State() == Button(old(State()), sdl, down)
      ensures signals <==> |queue| > |old(queue)|
    {
      var ofs := ButtonOffset(sdl);
      if ofs == 0 || Pressed(buttons, ofs) == down { return false; }
      buttons := Press(buttons, ofs, down);
      queue := queue + [Record(ofs, if down then 0x80 else 0)];
      signals := true;
    }

    method GetDeviceState() returns (dx: int, dy: int, mask: Buttons)
      modifies this
      ensures State() == Poll(old(State())) && mask == buttons
      ensures (dx, dy) == Reported(old(State()), Polled)
    {
      dx, dy, mask := x - lastX, y - lastY, buttons;
      lastX, lastY := x, y;
    }

    /** The entries written, oldest first, and the number stored for the caller. A
        null buffer only asks how many are queued. */
    method GetDeviceData(r: Request) returns (entries: seq<seq<nat>>, count: nat)
      modifies this
      ensures State() == Drain(old(State()), r)
      ensures count == if r.hasBuffer then Count(old(State()), r) else |old(queue)|
      ensures entries == Entries(old(State()), r)
    {
      entries := [];
      if !r.hasBuffer {
        assert queue[0..] == queue;
        return entries, |queue|;
      }
      count := if r.size == 0 then 0 else if r.asked < |queue| then r.asked else |queue|;
      ghost var before := queue;
      for i := 0 to count
        invariant State() == old(State()).(queue := queue)
        invariant queue == if r.peek then before else before[i..]
        invariant |entries| == i && forall k :: 0 <= k < i ==> entries[k] == Entry(before[k], k, r.size)
      {
        var record;
        if r.peek {
          record := queue[i];
        } else {
          record := queue[0];
          queue := queue[1..];
        }
        entries := entries + [Entry(record, i, r.size)];
      }
    }
  }
}
