/** FileTextTrigger: watching a growing file for a text. */
module FileTrigger {
  import opened LittleEndian

  predicate OccursAt(needle: Bytes, data: Bytes, i: nat) {
    i + |needle| <= |data| && data[i..i + |needle|] == needle
  }

  predicate Occurs(needle: Bytes, data: Bytes) {
    exists i :: 0 <= i <= |data| && OccursAt(needle, data, i)
  }

  /** What a poll finds: stat fails, reading fails, or the file's contents. A
      missing file has size 0 and reads as empty. */
  datatype Look = StatFails | ReadFails(size: nat) | Contents(bytes: Bytes)

  datatype Trigger = Trigger(needle: Bytes, fired: bool, offset: nat, carry: Bytes)

  /** data[-keep:] if keep > 0 else b"" */
  function Tail(data: Bytes, keep: nat): (r: Bytes)
    ensures |r| == if |data| < keep then |data| else keep
  {
    if |data| < keep then data else data[|data| - keep..]
  }

  function Size(look: Look): nat {
    match look case StatFails => 0 case ReadFails(size) => size case Contents(bytes) => |bytes|
  }

  /** A file smaller than what was read is taken to be a new one. */
  function Restarted(t: Trigger, size: nat): Trigger {
    if size < t.offset then t.(offset := 0, carry := []) else t
  }

  /** poll, on values: the trigger afterwards and whether it fires. */
  function PollStep(t: Trigger, look: Look): (r: (Trigger, bool))
    requires t.needle != []
    ensures r.0.needle == t.needle
  {
    if t.fired || look.StatFails? then (t, false)
    else
      var u := Restarted(t, Size(look));
      if Size(look) == u.offset || look.ReadFails? then (u, false)
      else
        var chunk := look.bytes[u.offset..];
        var data := u.carry + chunk;
        if Occurs(t.needle, data) then (u.(offset := |look.bytes|, fired := true), true)
        else (u.(offset := |look.bytes|, carry := Tail(data, |t.needle| - 1)), false)
  }

  // ---- The simple form: keep everything read, search all of it ----

  datatype Reader = Reader(needle: Bytes, done: bool, offset: nat, stream: Bytes)

  function Consume(r: Reader, look: Look): Reader {
    if look.StatFails? then r
    else
      var s := if Size(look) < r.offset then r.(offset := 0, stream := []) else r;
      if Size(look) == s.offset || look.ReadFails? then s
      else s.(offset := |look.bytes|, stream := s.stream + look.bytes[s.offset..])
  }

  /** Fires when the text is somewhere in what has been read, once. */
  function Search(r: Reader, look: Look): (Reader, bool) {
    if r.done then (r, false)
    else
      var s := Consume(r, look);
      (s.(done := Occurs(r.needle, s.stream)), Occurs(r.needle, s.stream))
  }

  /** The trigger remembers just enough of what the reader has read. */
  ghost predicate Matches(t: Trigger, r: Reader) {
    && t.needle == r.needle && t.needle != [] && t.fired == r.done
    && (!t.fired ==>
      t.offset == r.offset && t.carry == Tail(r.stream, |t.needle| - 1) && !Occurs(t.needle, r.stream))
  }

  lemma TailAligned(before: Bytes, chunk: Bytes, keep: nat) returns (shift: nat)
    ensures shift + |Tail(before, keep)| == |before| && (before + chunk)[shift..] == Tail(before, keep) + chunk
  {
    shift := |before| - |Tail(before, keep)|;
  }

  lemma OccursInside(needle: Bytes, whole: Bytes, shift: nat, i: nat)
    requires shift <= |whole|
    ensures OccursAt(needle, whole[shift..], i) <==> OccursAt(needle, whole, shift + i)
  {
    if shift + i + |needle| <= |whole| {
      assert whole[shift..][i..i + |needle|] == whole[shift + i..shift + i + |needle|];
    }
  }

  /** An occurrence that was not there before lies in the last bytes and the chunk. */
  lemma CarryIsEnough(needle: Bytes, before: Bytes, chunk: Bytes)
    requires needle != [] && !Occurs(needle, before)
    ensures Occurs(needle, before + chunk) <==> Occurs(needle, Tail(before, |needle| - 1) + chunk)
  {
    var whole, part := before + chunk, Tail(before, |needle| - 1) + chunk;
    var shift := TailAligned(before, chunk, |needle| - 1);
    if Occurs(needle, whole) {
      var i :| 0 <= i <= |whole| && OccursAt(needle, whole, i);
      if i + |needle| <= |before| {
        assert whole[i..i + |needle|] == before[i..i + |needle|];
        assert OccursAt(needle, before, i);
      } else {
        OccursInside(needle, whole, shift, i - shift);
      }
    }
    if Occurs(needle, part) {
      var i :| 0 <= i <= |part| && OccursAt(needle, part, i);
      OccursInside(needle, whole, shift, i);
    }
  }

  lemma TailOfTail(before: Bytes, chunk: Bytes, keep: nat)
    ensures Tail(Tail(before, keep) + chunk, keep) == Tail(before + chunk, keep)
  {
    var a, b := Tail(before, keep) + chunk, before + chunk;
    assert b[|before| - |Tail(before, keep)|..] == a;
  }

  lemma NothingYet(needle: Bytes)
    requires needle != []
    ensures !Occurs(needle, []) && Tail([], |needle| - 1) == []
  {
  }

  /** One poll of the trigger answers as the whole search does. */
  lemma PollRefines(t: Trigger, r: Reader, look: Look)
    requires Matches(t, r)
    ensures PollStep(t, look).1 == Search(r, look).1 && Matches(PollStep(t, look).0, Search(r, look).0)
  {
    hide Occurs, Tail;
    if !t.fired && !look.StatFails? {
      NothingYet(t.needle);
      var u := Restarted(t, Size(look));
      var s := if Size(look) < r.offset then r.(offset := 0, stream := []) else r;
      assert !Occurs(t.needle, s.stream);
      if Size(look) != u.offset && look.Contents? {
        var chunk := look.bytes[u.offset..];
        CarryIsEnough(t.needle, s.stream, chunk);
        TailOfTail(s.stream, chunk, |t.needle| - 1);
      }
    }
  }

  // ---- Runs ----

  function Polls(t: Trigger, looks: seq<Look>): seq<bool>
    requires t.needle != []
    decreases |looks|
  {
    if looks == [] then [] else
      var (u, fired) := PollStep(t, looks[0]);
      [fired] + Polls(u, looks[1..])
  }

  function Searches(r: Reader, looks: seq<Look>): seq<bool>
    decreases |looks|
  {
    if looks == [] then [] else
      var (s, fired) := Search(r, looks[0]);
      [fired] + Searches(s, looks[1..])
  }

  lemma {:induction false} PollsRefine(t: Trigger, r: Reader, looks: seq<Look>)
    requires Matches(t, r)
    ensures Polls(t, looks) == Searches(r, looks)
    decreases |looks|
  {
    hide PollStep, Search, Occurs, Tail;
    if looks != [] {
      PollRefines(t, r, looks[0]);
      PollsRefine(PollStep(t, looks[0]).0, Search(r, looks[0]).0, looks[1..]);
    }
  }

  /** A trigger made when the file had size bytes. */
  function Made(needle: Bytes, size: nat): Trigger {
    Trigger(needle, false, size, [])
  }

  /** Streaming refines whole-string search: however the bytes are split across
      polls, each poll answers as if everything read since the start, or since the
      file was seen to shrink, were searched at once. */
  lemma StreamingRefinesSearch(needle: Bytes, size: nat, looks: seq<Look>)
    requires needle != []
    ensures Polls(Made(needle, size), looks) == Searches(Reader(needle, false, size, []), looks)
  {
    PollsRefine(Made(needle, size), Reader(needle, false, size, []), looks);
  }

  /** The file after the k-th poll's look, while it only grows. */
  ghost predicate Grows(first: Bytes, files: seq<Bytes>) {
    && (files != [] ==> first <= files[0])
    && forall k :: 0 <= k < |files| - 1 ==> files[k] <= files[k + 1]
  }

  function Looks(files: seq<Bytes>): (r: seq<Look>)
    ensures |r| == |files| && forall k :: 0 <= k < |files| ==> r[k] == Contents(files[k])
  {
    seq(|files|, k requires 0 <= k < |files| => Contents(files[k]))
  }

  lemma {:induction false} NeverAgain(r: Reader, looks: seq<Look>)
    requires r.done
    ensures |Searches(r, looks)| == |looks| && forall k :: 0 <= k < |looks| ==> !Searches(r, looks)[k]
    decreases |looks|
  {
    if looks != [] { NeverAgain(r, looks[1..]); }
  }

  /** The text is in the k-th file after base, and in none before it. */
  ghost predicate FirstAt(needle: Bytes, base: nat, files: seq<Bytes>, k: nat) {
    && k < |files| && base <= |files[k]| && Occurs(needle, files[k][base..])
    && forall j :: 0 <= j < k ==> base <= |files[j]| && !Occurs(needle, files[j][base..])
  }

  lemma FirstLater(needle: Bytes, base: nat, files: seq<Bytes>, k: nat)
    requires 0 < k < |files| && base <= |files[0]|
    ensures FirstAt(needle, base, files, k)
      <==> !Occurs(needle, files[0][base..]) && FirstAt(needle, base, files[1..], k - 1)
  {
    if !Occurs(needle, files[0][base..]) && FirstAt(needle, base, files[1..], k - 1) {
      forall j | 0 <= j < k ensures base <= |files[j]| && !Occurs(needle, files[j][base..]) {
        if j > 0 { assert files[j] == files[1..][j - 1]; }
      }
    }
    if FirstAt(needle, base, files, k) {
      forall j | 0 <= j < k - 1 ensures base <= |files[1..][j]| && !Occurs(needle, files[1..][j][base..]) {
        assert files[1..][j] == files[j + 1];
      }
    }
  }

  /** Reading one more version of a growing file. */
  lemma ReadOn(needle: Bytes, base: nat, now: Bytes, file: Bytes)
    requires base <= |now| && now <= file
    ensures Consume(Reader(needle, false, |now|, now[base..]), Contents(file))
      == Reader(needle, false, |file|, file[base..])
  {
    assert now[base..] + file[|now|..] == file[base..];
    if |file| == |now| { assert file == now; }
  }

  lemma {:induction false} GrowingSearch(needle: Bytes, base: nat, now: Bytes, files: seq<Bytes>)
    requires needle != [] && base <= |now| && Grows(now, files)
    ensures |Searches(Reader(needle, false, |now|, now[base..]), Looks(files))| == |files|
    ensures forall k :: 0 <= k < |files| ==>
      (Searches(Reader(needle, false, |now|, now[base..]), Looks(files))[k] <==> FirstAt(needle, base, files, k))
    decreases |files|
  {
    if files != [] {
      var file, rest := files[0], files[1..];
      var r := Reader(needle, false, |now|, now[base..]);
      var s, fired := Search(r, Contents(file)).0, Search(r, Contents(file)).1;
      assert Looks(files)[0] == Contents(file) && Looks(files)[1..] == Looks(rest);
      ReadOn(needle, base, now, file);
      assert Searches(r, Looks(files)) == [fired] + Searches(s, Looks(rest));
      assert Grows(file, rest);
      if fired { NeverAgain(s, Looks(rest)); } else { GrowingSearch(needle, base, file, rest); }
      hide Search, Searches, Consume, Occurs;
      forall k | 0 < k < |files| ensures ([fired] + Searches(s, Looks(rest)))[k] <==> FirstAt(needle, base, files, k) {
        FirstLater(needle, base, files, k);
      }
    }
  }

  /** On a file that only grows, the trigger fires at exactly the first poll that
      sees the text in what was appended since it was made, and never again. */
  lemma FiresAtFirst(needle: Bytes, start: Bytes, files: seq<Bytes>, k: nat)
    requires needle != [] && Grows(start, files) && k < |files|
    ensures |Polls(Made(needle, |start|), Looks(files))| == |files|
    ensures Polls(Made(needle, |start|), Looks(files))[k] <==> FirstAt(needle, |start|, files, k)
  {
    StreamingRefinesSearch(needle, |start|, Looks(files));
    assert start[|start|..] == [];
    GrowingSearch(needle, |start|, start, files);
  }

  // ---- The class ----

  class FileTextTrigger {
    const needle: Bytes
    var fired: bool
    var offset: nat
    var carry: Bytes
    var warned: bool

    function State(): Trigger
      reads this
    {
      Trigger(needle, fired, offset, carry)
    }

    constructor (needle: Bytes, size: nat)
      requires needle != []
      ensures this.needle == needle && State() == Made(needle, size)
    {
      this.needle := needle;
      fired, offset, carry, warned := false, size, [], false;
    }

    method Poll(look: Look) returns (r: bool)
      requires needle != []
      modifies this
      ensures (State(), r) == PollStep(old(State()), look)
    {
      hide Occurs, Tail;
      if fired { return false; }
      if look.StatFails? {
        warned := true;
        return false;
      }
      var size := Size(look);
      if size < offset {
        offset := 0;
        carry := [];
      }
      if size == offset { return false; }
      if look.ReadFails? {
        warned := true;
        return false;
      }
      var chunk := look.bytes[offset..];
      offset := offset + |chunk|;
      var data := carry + chunk;
      if Occurs(needle, data) {
        fired := true;
        return true;
      }
      carry := Tail(data, |needle| - 1);
      r := false;
    }
  }
}
