/** DirectSound secondary buffers: locking, playing and mixing a ring of PCM bytes. */
module SoundRing {
  import opened LittleEndian

  // ---- Lock ----

  /** The two parts of a lock: offset and length of the first, length of the second,
      which starts at offset 0. */
  datatype Regions = Regions(start: nat, bytes1: nat, bytes2: nat)

  /** The arithmetic of Lock; the entire-buffer flag asks for everything from 0. */
  function Lock(size: nat, cursor: nat, bytes: nat, entire: bool): Regions
    requires size > 0
  {
    var from, count := if entire then 0 else cursor, if entire then size else bytes;
    var start := from % size;
    if start + count <= size then Regions(start, count, 0) else Regions(start, size - start, count - (size - start))
  }

  predicate InFirst(r: Regions, p: int) {
    r.start <= p < r.start + r.bytes1
  }

  predicate InSecond(r: Regions, p: int) {
    0 <= p < r.bytes2
  }

  /** p is one of the count bytes from cursor on, going round. */
  ghost predicate InCircle(size: nat, cursor: nat, count: nat, p: int)
    requires size > 0
  {
    exists k: nat :: k < count && p == CircleAt(size, cursor, k)
  }

  function CircleAt(size: nat, cursor: nat, k: nat): (p: nat)
    requires size > 0
    ensures p < size
  {
    (cursor + k) % size
  }

  lemma ModAdd(size: nat, cursor: nat, k: nat)
    requires size > 0
    ensures CircleAt(size, cursor, k) == CircleAt(size, cursor % size, k)
  {
    var q := cursor / size;
    assert cursor + k == q * size + (cursor % size + k);
    ModShift(size, q, cursor % size + k);
  }

  lemma {:induction false} ModShift(size: nat, q: nat, r: nat)
    requires size > 0
    ensures (q * size + r) % size == r % size
    decreases q
  {
    if q > 0 {
      ModShift(size, q - 1, r);
      assert q * size + r == ((q - 1) * size + r) + size;
      AddModulus(size, (q - 1) * size + r);
    }
  }

  lemma AddModulus(size: nat, n: nat)
    requires size > 0
    ensures (n + size) % size == n % size
  {
    var q, r := n / size, n % size;
    assert n + size == (q + 1) * size + r;
    ModUnique(size, q + 1, r, n + size);
  }

  lemma MoreRounds(a: nat, b: nat, size: nat)
    requires a < b
    ensures a * size + size <= b * size
  {
    assert b * size == (a + 1) * size + (b - (a + 1)) * size;
  }

  lemma ModUnique(size: nat, q: nat, r: nat, n: nat)
    requires r < size && n == q * size + r
    ensures n % size == r
  {
    var q2 := n / size;
    if q2 < q { MoreRounds(q2, q, size); }
    if q < q2 { MoreRounds(q, q2, size); }
  }

  /** Two rounds at most: where position k of the circle lies. */
  lemma Wrap(size: nat, start: nat, k: nat)
    requires start < size && k < size
    ensures CircleAt(size, start, k) == if start + k < size then start + k else start + k - size
  {
    if start + k >= size { AddModulus(size, start + k - size); }
  }

  /** A request for no more than the buffer locks two disjoint parts of it that
      together are exactly the circular stretch asked for. */
  lemma LockCoversCircle(size: nat, cursor: nat, bytes: nat, p: int)
    requires 0 < size && bytes <= size
    ensures var r := Lock(size, cursor, bytes, false);
      && r.bytes1 + r.bytes2 == bytes && r.start + r.bytes1 <= size && r.bytes2 <= size
      && !(InFirst(r, p) && InSecond(r, p))
      && (InFirst(r, p) || InSecond(r, p) <==> InCircle(size, cursor, bytes, p))
  {
    var r := Lock(size, cursor, bytes, false);
    var start := cursor % size;
    if InFirst(r, p) {
      Wrap(size, start, p - start);
      ModAdd(size, cursor, p - start);
      assert InCircle(size, cursor, bytes, p);
    }
    if InSecond(r, p) {
      var k := size - start + p;
      Wrap(size, start, k);
      ModAdd(size, cursor, k);
      assert InCircle(size, cursor, bytes, p);
    }
    if InCircle(size, cursor, bytes, p) {
      var k: nat :| k < bytes && p == CircleAt(size, cursor, k);
      ModAdd(size, cursor, k);
      Wrap(size, start, k);
    }
  }

  /** The parts are disjoint and inside the buffer exactly when the request is no
      larger than the buffer. */
  lemma LockSafeIff(size: nat, cursor: nat, bytes: nat)
    requires 0 < size
    ensures var r := Lock(size, cursor, bytes, false);
      (r.start + r.bytes1 <= size && r.bytes2 <= size && forall p :: !(InFirst(r, p) && InSecond(r, p)))
        <==> bytes <= size
  {
    var r := Lock(size, cursor, bytes, false);
    if bytes > size {
      assert InFirst(r, r.start) && InSecond(r, r.start);
    }
  }

  // ---- Mixing ----

  /** A secondary buffer: its bytes, its play cursor and how it plays. */
  datatype Buffer = Buffer(data: Bytes, bits: nat, playing: bool, looping: bool, cursor: nat)

  function Samples(chunk: Bytes, bits: nat): nat {
    if bits == 16 then |chunk| / 2 else |chunk|
  }

  /** array('h').frombytes gives signed 16-bit samples; an unsigned byte is scaled. */
  function Sample(chunk: Bytes, bits: nat, i: nat): int
    requires i < Samples(chunk, bits)
  {
    if bits == 16 then AsSigned(Read16(chunk, 2 * i)) else (chunk[i] as int - 128) * 256
  }

  function Saturate(v: int): int {
    if v > 32767 then 32767 else if v < -32768 then -32768 else v
  }

  /** The output after mixing a chunk in: a saturating sum where there is a sample. */
  function Mixed(out: seq<int>, chunk: Bytes, bits: nat): (r: seq<int>)
    ensures |r| == |out|
  {
    seq(|out|, i requires 0 <= i < |out| =>
      if i < Samples(chunk, bits) then Saturate(out[i] + Sample(chunk, bits, i)) else out[i])
  }

  /** A mix step: the buffer afterwards and the bytes mixed in. An odd chunk of a
      16-bit buffer is refused, and an empty looping buffer divides by zero. */
  datatype MixStep = MixStep(buffer: Buffer, chunk: Bytes) | DividesByZero

  function Min(a: nat, b: nat): nat { if a < b then a else b }

  function Mix(b: Buffer, length: nat): MixStep {
    if b.cursor >= |b.data| && !b.looping then MixStep(b.(playing := false), [])
    else
      var from := if b.cursor >= |b.data| then 0 else b.cursor;
      var copy := Min(length, |b.data| - from);
      if b.bits == 16 && copy % 2 == 1 then MixStep(b.(cursor := from), [])
      else if b.looping && from + copy >= |b.data| then
        if |b.data| == 0 then DividesByZero
        else MixStep(b.(cursor := (from + copy) % |b.data|), b.data[from..from + copy])
      else MixStep(b.(cursor := from + copy), b.data[from..from + copy])
  }

  // ---- Runs of one buffer ----

  datatype Action = Play(loop: bool) | Stop | Seek(pos: nat) | Callback(length: nat)

  /** The audio callback mixes only what is playing. */
  function Step(b: Buffer, a: Action): MixStep {
    match a
    case Play(loop) => MixStep(b.(looping := loop, playing := true), [])
    case Stop => MixStep(b.(playing := false), [])
    case Seek(pos) => MixStep(b.(cursor := if |b.data| > 0 then pos % |b.data| else 0), [])
    case Callback(length) => if b.playing then Mix(b, length) else MixStep(b, [])
  }

  function Run(b: Buffer, actions: seq<Action>): MixStep
    decreases |actions|
  {
    if actions == [] then MixStep(b, [])
    else
      match Step(b, actions[0])
      case DividesByZero => DividesByZero
      case MixStep(next, chunk) =>
        match Run(next, actions[1..])
        case DividesByZero => DividesByZero
        case MixStep(last, more) => MixStep(last, chunk + more)
  }

  lemma StepInside(b: Buffer, a: Action)
    requires b.cursor <= |b.data|
    ensures Step(b, a).DividesByZero? ==> |b.data| == 0
    ensures Step(b, a).MixStep? ==> Step(b, a).buffer.cursor <= |b.data| && Step(b, a).buffer.data == b.data
  {
  }

  /** However a buffer is played, stopped, sought and mixed, its cursor stays within
      it, and only an empty buffer can fail. */
  lemma {:induction false} CursorInside(b: Buffer, actions: seq<Action>)
    requires b.cursor <= |b.data|
    ensures Run(b, actions).DividesByZero? ==> |b.data| == 0
    ensures Run(b, actions).MixStep? ==> Run(b, actions).buffer.cursor <= |b.data|
    decreases |actions|
  {
    hide Step;
    if actions != [] {
      StepInside(b, actions[0]);
      if Step(b, actions[0]).MixStep? {
        CursorInside(Step(b, actions[0]).buffer, actions[1..]);
      }
    }
  }

  function Callbacks(lengths: seq<nat>): (r: seq<Action>)
    ensures |r| == |lengths| && forall k :: 0 <= k < |lengths| ==> r[k] == Callback(lengths[k])
  {
    seq(|lengths|, k requires 0 <= k < |lengths| => Callback(lengths[k]))
  }

  function Sum(lengths: seq<nat>): nat {
    if lengths == [] then 0 else lengths[0] + Sum(lengths[1..])
  }

  /** Lengths an audio device asks for. */
  predicate GoodLengths(lengths: seq<nat>) {
    forall k :: 0 <= k < |lengths| ==> lengths[k] > 0 && lengths[k] % 2 == 0
  }

  /** No chunk up to the end is refused. */
  predicate WholeSamples(b: Buffer) {
    b.bits == 16 ==> b.cursor <= |b.data| && (|b.data| - b.cursor) % 2 == 0
  }

  lemma RestOfLengths(lengths: seq<nat>)
    requires lengths != [] && GoodLengths(lengths)
    ensures GoodLengths(lengths[1..]) && lengths[0] > 0 && lengths[0] % 2 == 0
    ensures Callbacks(lengths)[0] == Callback(lengths[0]) && Callbacks(lengths)[1..] == Callbacks(lengths[1..])
  {
  }

  lemma RunCallbacks(b: Buffer, lengths: seq<nat>, next: Buffer, chunk: Bytes, last: Buffer, more: Bytes)
    requires lengths != [] && Step(b, Callback(lengths[0])) == MixStep(next, chunk)
    requires Run(next, Callbacks(lengths[1..])) == MixStep(last, more)
    ensures Run(b, Callbacks(lengths)) == MixStep(last, chunk + more)
  {
    hide Step;
    assert Callbacks(lengths)[1..] == Callbacks(lengths[1..]);
  }

  /** One callback on a buffer that plays once through. */
  lemma OnceStep(b: Buffer, length: nat)
    requires b.playing && !b.looping && b.cursor < |b.data| && WholeSamples(b) && length > 0 && length % 2 == 0
    ensures var n := Min(length, |b.data| - b.cursor);
      && Step(b, Callback(length)) == MixStep(b.(cursor := b.cursor + n), b.data[b.cursor..b.cursor + n])
      && WholeSamples(b.(cursor := b.cursor + n)) && n > 0
  {
  }

  lemma {:induction false} StoppedStays(b: Buffer, lengths: seq<nat>)
    requires !b.playing
    ensures Run(b, Callbacks(lengths)) == MixStep(b, [])
    decreases |lengths|
  {
    if lengths != [] {
      assert Callbacks(lengths)[1..] == Callbacks(lengths[1..]);
      StoppedStays(b, lengths[1..]);
    }
  }

  lemma StopsAtEnd(b: Buffer, lengths: seq<nat>)
    requires b.playing && !b.looping && b.cursor == |b.data| && lengths != []
    ensures Run(b, Callbacks(lengths)) == MixStep(b.(playing := false), [])
  {
    assert Callbacks(lengths)[1..] == Callbacks(lengths[1..]);
    StoppedStays(b.(playing := false), lengths[1..]);
  }

  lemma SumButLast(lengths: seq<nat>)
    requires |lengths| > 1
    ensures Sum(lengths[..|lengths| - 1]) == lengths[0] + Sum(lengths[1..][..|lengths| - 2])
  {
    assert lengths[..|lengths| - 1][1..] == lengths[1..][..|lengths| - 2];
  }

  /** What playing once through leaves after callbacks of these lengths. */
  ghost predicate PlayedOnce(b: Buffer, lengths: seq<nat>, r: MixStep)
    requires b.cursor <= |b.data|
  {
    && r.MixStep?
    && r.chunk == b.data[b.cursor..b.cursor + Min(Sum(lengths), |b.data| - b.cursor)]
    && (r.buffer.playing <==> lengths == [] || Sum(lengths[..|lengths| - 1]) < |b.data| - b.cursor)
  }

  lemma PlayedMore(b: Buffer, n: nat, lengths: seq<nat>, r: MixStep)
    requires lengths != [] && GoodLengths(lengths) && b.cursor < |b.data| && n == Min(lengths[0], |b.data| - b.cursor)
    requires PlayedOnce(b.(cursor := b.cursor + n), lengths[1..], r)
    ensures PlayedOnce(b, lengths, MixStep(r.buffer, b.data[b.cursor..b.cursor + n] + r.chunk))
  {
    if |lengths| > 1 {
      SumButLast(lengths);
    } else {
      assert Sum(lengths[..0]) == 0;
    }
  }

  /** A buffer that does not loop plays its bytes from the cursor to the end, each
      once and in order: after any callbacks, as many as they asked for, and it has
      stopped exactly when all but the last of them asked for all there were. */
  lemma {:induction false} PlaysOnce(b: Buffer, lengths: seq<nat>)
    requires b.playing && !b.looping && b.cursor <= |b.data| && WholeSamples(b) && GoodLengths(lengths)
    ensures PlayedOnce(b, lengths, Run(b, Callbacks(lengths)))
    decreases |lengths|
  {
    if lengths == [] {
    } else if b.cursor == |b.data| {
      StopsAtEnd(b, lengths);
    } else {
      RestOfLengths(lengths);
      OnceStep(b, lengths[0]);
      var n := Min(lengths[0], |b.data| - b.cursor);
      var next := b.(cursor := b.cursor + n);
      hide Step, Run, PlayedOnce, Callbacks;
      PlaysOnce(next, lengths[1..]);
      var rest := Run(next, Callbacks(lengths[1..]));
      IsMixStep(next, lengths[1..], rest);
      RunCallbacks(b, lengths, next, b.data[b.cursor..b.cursor + n], rest.buffer, rest.chunk);
      PlayedMore(b, n, lengths, rest);
    }
  }

  lemma IsMixStep(b: Buffer, lengths: seq<nat>, r: MixStep)
    requires b.cursor <= |b.data| && PlayedOnce(b, lengths, r)
    ensures r.MixStep?
  {
  }

  /** A 16-bit buffer with an odd number of bytes left never gets past them. */
  lemma {:induction false} OddNeverEnds(b: Buffer, lengths: seq<nat>)
    requires b.playing && !b.looping && b.cursor < |b.data| && b.bits == 16 && (|b.data| - b.cursor) % 2 == 1
    requires GoodLengths(lengths)
    ensures Run(b, Callbacks(lengths)).MixStep? && Run(b, Callbacks(lengths)).buffer.playing
    decreases |lengths|
  {
    if lengths != [] {
      RestOfLengths(lengths);
      var next := Step(b, Callback(lengths[0])).buffer;
      OddNeverEnds(next, lengths[1..]);
    }
  }

  /** A buffer that does not loop ever stops exactly when its samples come out whole. */
  lemma EndsIff(b: Buffer)
    requires b.playing && !b.looping && b.cursor <= |b.data|
    ensures (exists lengths ::
      GoodLengths(lengths) && Run(b, Callbacks(lengths)).MixStep? && !Run(b, Callbacks(lengths)).buffer.playing)
      <==> WholeSamples(b)
  {
    if WholeSamples(b) {
      var lengths := [2 * |b.data| + 2, 2];
      PlaysOnce(b, lengths);
      assert lengths[..1][1..] == [] && Sum(lengths[..1]) == 2 * |b.data| + 2;
    } else {
      forall lengths | GoodLengths(lengths)
        ensures Run(b, Callbacks(lengths)).MixStep? && Run(b, Callbacks(lengths)).buffer.playing
      {
        OddNeverEnds(b, lengths);
      }
    }
  }

  /** A looping buffer whose chunks are all whole samples. */
  predicate Loops(b: Buffer) {
    b.playing && b.looping && b.data != [] && b.cursor <= |b.data|
    && (b.bits == 16 ==> |b.data| % 2 == 0 && b.cursor % 2 == 0)
  }

  /** One callback on it: n bytes from the cursor on, then round. */
  lemma LoopStep(b: Buffer, length: nat) returns (from: nat, n: nat, next: Buffer)
    requires Loops(b) && length > 0 && length % 2 == 0
    ensures from == (if b.cursor == |b.data| then 0 else b.cursor) && 0 < n <= |b.data| - from
    ensures next == b.(cursor := if from + n == |b.data| then 0 else from + n) && Loops(next)
    ensures Step(b, Callback(length)) == MixStep(next, b.data[from..from + n])
  {
    var size := |b.data|;
    from := if b.cursor == size then 0 else b.cursor;
    n := Min(length, size - from);
    next := b.(cursor := if from + n == size then 0 else from + n);
    AddModulus(size, 0);
    EvenParts(size, from, length);
    assert Step(b, Callback(length))
      == MixStep(b.(cursor := if from + n >= size then (from + n) % size else from + n), b.data[from..from + n]);
  }

  lemma EvenParts(size: nat, from: nat, length: nat)
    requires from < size && length % 2 == 0
    ensures size % 2 == 0 && from % 2 == 0 ==>
      Min(length, size - from) % 2 == 0 && (from + Min(length, size - from)) % 2 == 0
  {
  }

  lemma StreamAt(data: Bytes, from: nat, n: nat, k: nat)
    requires from < |data| && 0 < n <= |data| - from
    ensures CircleAt(|data|, from, n + k) == CircleAt(|data|, if from + n == |data| then 0 else from + n, k)
    ensures k < n ==> CircleAt(|data|, from, k) == from + k
  {
    if from + n == |data| { AddModulus(|data|, k); }
    if k < n { Wrap(|data|, from, k); }
  }

  /** chunk is the bytes of data from the cursor on, going round. */
  ghost predicate Streams(data: Bytes, cursor: nat, chunk: Bytes)
    requires data != []
  {
    forall k: nat :: k < |chunk| ==> chunk[k] == data[CircleAt(|data|, cursor, k)]
  }

  lemma StreamsOn(data: Bytes, cursor: nat, from: nat, n: nat, more: Bytes)
    requires data != [] && cursor <= |data| && from == (if cursor == |data| then 0 else cursor)
    requires 0 < n <= |data| - from
    requires Streams(data, if from + n == |data| then 0 else from + n, more)
    ensures Streams(data, cursor, data[from..from + n] + more)
  {
    var chunk := data[from..from + n] + more;
    forall k: nat | k < |chunk| ensures chunk[k] == data[CircleAt(|data|, cursor, k)] {
      if cursor == |data| { AddModulus(|data|, k); }
      StreamAt(data, from, n, if k < n then k else k - n);
      assert chunk[k] == if k < n then data[from + k] else more[k - n];
    }
  }

  /** A looping buffer plays its bytes round and round from the cursor, none missed
      and none repeated, and every callback plays some. */
  lemma {:induction false} LoopsRound(b: Buffer, lengths: seq<nat>)
    requires Loops(b) && GoodLengths(lengths)
    ensures Run(b, Callbacks(lengths)).MixStep? && |Run(b, Callbacks(lengths)).chunk| >= |lengths|
    ensures Streams(b.data, b.cursor, Run(b, Callbacks(lengths)).chunk)
    decreases |lengths|
  {
    if lengths != [] {
      RestOfLengths(lengths);
      hide Streams, Step, Run, Loops, GoodLengths;
      var from, n, next := LoopStep(b, lengths[0]);
      LoopsRound(next, lengths[1..]);
      var rest := Run(next, Callbacks(lengths[1..]));
      RunCallbacks(b, lengths, next, b.data[from..from + n], rest.buffer, rest.chunk);
      LoopsIs(b);
      StreamsOn(b.data, b.cursor, from, n, rest.chunk);
    }
  }

  lemma LoopsIs(b: Buffer)
    requires Loops(b)
    ensures b.data != [] && b.cursor <= |b.data|
  {
  }

  // ---- The buffer object ----

  datatype LockResult = Locked(regions: Regions) | LockDividesByZero

  class SoundBuffer {
    var data: Bytes
    var bits: nat
    var playing: bool
    var looping: bool
    var cursor: nat

    function State(): Buffer
      reads this
    {
      Buffer(data, bits, playing, looping, cursor)
    }

    method LockBytes(cursorAt: nat, bytes: nat, entire: bool) returns (r: LockResult)
      ensures r == if |data| == 0 then LockDividesByZero else Locked(Lock(|data|, cursorAt, bytes, entire))
    {
      var from, count := cursorAt, bytes;
      if entire {
        from, count := 0, |data|;
      }
      if |data| == 0 { return LockDividesByZero; }
      var start := from % |data|;
      var end := start + count;
      if end <= |data| { return Locked(Regions(start, count, 0)); }
      var bytes1 := |data| - start;
      r := Locked(Regions(start, bytes1, count - bytes1));
    }

    method PlayBuffer(loop: bool)
      modifies this
      ensures State() == Buffer(old(data), old(bits), true, loop, old(cursor))
      ensures MixStep(State(), []) == Step(old(State()), Play(loop))
    {
      looping, playing := loop, true;
    }

    method StopBuffer()
      modifies this
      ensures State() == Buffer(old(data), old(bits), false, old(looping), old(cursor))
      ensures MixStep(State(), []) == Step(old(State()), Stop)
    {
      playing := false;
    }

    method SetCurrentPosition(pos: nat)
      modifies this
      ensures State() == Buffer(old(data), old(bits), old(playing), old(looping), cursor)
      ensures if data == [] then cursor == 0 else cursor < |data| && exists q :: pos == q * |data| + cursor
      ensures MixStep(State(), []) == Step(old(State()), Seek(pos))
    {
      cursor := if |data| > 0 then pos % |data| else 0;
      assert |data| > 0 ==> pos == pos / |data| * |data| + cursor;
    }

    /** Mixes up to length bytes into out; fails where the program would divide by
        zero, after mixing. */
    method MixInto(out: array<int>, length: nat) returns (ok: bool)
      modifies this, out
      ensures ok <==> Mix(old(State()), length).MixStep?
      ensures ok ==> State() == Mix(old(State()), length).buffer
      ensures ok ==> out[..] == Mixed(old(out[..]), Mix(old(State()), length).chunk, old(bits))
    {
      hide Mixed;
      ghost var before := out[..];
      if cursor >= |data| {
        if !looping {
          playing := false;
          NothingMixed(before, bits);
          return true;
        }
        cursor := 0;
      }
      var copy := Min(length, |data| - cursor);
      var chunk := data[cursor..cursor + copy];
      if bits == 16 && |chunk| % 2 == 1 {
        NothingMixed(before, bits);
        return true;
      }
      MixSamples(out, chunk);
      cursor := cursor + copy;
      if looping && cursor >= |data| {
        if |data| == 0 { return false; }
        cursor := cursor % |data|;
      }
      ok := true;
    }

    /** The loop over the output array. */
    method MixSamples(out: array<int>, chunk: Bytes)
      modifies out
      ensures out[..] == Mixed(old(out[..]), chunk, bits)
    {
      var n := Min(Samples(chunk, bits), out.Length);
      for i := 0 to n
        invariant forall k :: 0 <= k < i ==> out[k] == Saturate(old(out[k]) + Sample(chunk, bits, k))
        invariant forall k :: i <= k < out.Length ==> out[k] == old(out[k])
      {
        var mixed := out[i] + Sample(chunk, bits, i);
        out[i] := if mixed > 32767 then 32767 else if mixed < -32768 then -32768 else mixed;
      }
    }
  }

  lemma NothingMixed(out: seq<int>, bits: nat)
    ensures Mixed(out, [], bits) == out
  {
  }

  /** Mixing saturates: a sum in range is exact, and the result always is a 16-bit
      sample. */
  lemma MixedSamples(out: seq<int>, chunk: Bytes, bits: nat, i: nat)
    requires i < |out|
    ensures i < Samples(chunk, bits) ==> -32768 <= Mixed(out, chunk, bits)[i] <= 32767
    ensures i < Samples(chunk, bits) && -32768 <= out[i] + Sample(chunk, bits, i) <= 32767 ==>
      Mixed(out, chunk, bits)[i] == out[i] + Sample(chunk, bits, i)
    ensures i >= Samples(chunk, bits) ==> Mixed(out, chunk, bits)[i] == out[i]
  {
  }
}
