/** What mixing adds to the output, and what play, stop and seek do to it. */
module SoundExact {
  import opened LittleEndian
  import opened SoundRing

  /** Sample i of a chunk, if it is there: two bytes, the low one first, in two's
      complement, or one byte above or below 128, times 256. */
  predicate SampleIs(chunk: Bytes, bits: nat, i: nat, v: int) {
    if bits == 16 then
      2 * i + 1 < |chunk|
      && var low: int, high: int := chunk[2 * i], chunk[2 * i + 1];
         v == low + 0x100 * (if high < 0x80 then high else high - 0x100)
    else
      i < |chunk| && var byte: int := chunk[i]; v == (byte - 0x80) * 0x100
  }

  /** The sum of what was there and the sample, or the end of the 16-bit range it
      passes; without a sample, what was there. */
  lemma MixedIs(out: seq<int>, chunk: Bytes, bits: nat, i: nat, v: int)
    requires i < |out|
    ensures SampleIs(chunk, bits, i, v) ==>
      Mixed(out, chunk, bits)[i]
        == if out[i] + v > 0x7fff then 0x7fff else if out[i] + v < -0x8000 then -0x8000 else out[i] + v
    ensures (forall w :: !SampleIs(chunk, bits, i, w)) ==> Mixed(out, chunk, bits)[i] == out[i]
  {
    if i < Samples(chunk, bits) {
      var w := Sample(chunk, bits, i);
      assert SampleIs(chunk, bits, i, w);
    }
  }

  lemma RunCons(b: Buffer, a: Action, next: Buffer, rest: seq<Action>)
    requires Step(b, a) == MixStep(next, [])
    ensures Run(b, [a] + rest) == Run(next, rest)
  {
    assert ([a] + rest)[0] == a && ([a] + rest)[1..] == rest;
    if Run(next, rest).MixStep? {
      assert [] + Run(next, rest).chunk == Run(next, rest).chunk;
    }
  }

  /** Seeking to a position in the buffer and playing: what is heard then is heard from
      there, whatever was played before. */
  lemma PlaysFrom(b: Buffer, at: nat, pos: nat, loop: bool, rest: seq<Action>)
    requires b.data != [] && at % |b.data| == pos
    ensures Run(b, [Seek(at)] + ([Play(loop)] + rest)) == Run(Buffer(b.data, b.bits, true, loop, pos), rest)
  {
    var sought := b.(cursor := pos);
    assert Step(b, Seek(at)) == MixStep(sought, []);
    var playing := Buffer(b.data, b.bits, true, loop, pos);
    assert Step(sought, Play(loop)) == MixStep(playing, []);
    hide Run, Step;
    RunCons(b, Seek(at), sought, [Play(loop)] + rest);
    RunCons(sought, Play(loop), playing, rest);
  }

  /** A stopped buffer is silent, and playing it goes on where it stopped. */
  lemma StopIsSilence(b: Buffer, lengths: seq<nat>, loop: bool, rest: seq<Action>)
    ensures Run(b, [Stop] + Callbacks(lengths)) == MixStep(Buffer(b.data, b.bits, false, b.looping, b.cursor), [])
    ensures Run(b, [Stop] + ([Play(loop)] + rest)) == Run(Buffer(b.data, b.bits, true, loop, b.cursor), rest)
  {
    var stopped := Buffer(b.data, b.bits, false, b.looping, b.cursor);
    StoppedStays(stopped, lengths);
    hide Run;
    RunCons(b, Stop, stopped, Callbacks(lengths));
    RunCons(b, Stop, stopped, [Play(loop)] + rest);
    RunCons(stopped, Play(loop), Buffer(b.data, b.bits, true, loop, b.cursor), rest);
  }

  /** Heard through once from a position: the bytes from there on, and silence at the
      end. */
  lemma HeardFrom(b: Buffer, pos: nat, lengths: seq<nat>)
    requires pos < |b.data| && (b.bits == 16 ==> (|b.data| - pos) % 2 == 0) && GoodLengths(lengths)
    ensures Run(b, [Seek(pos)] + ([Play(false)] + Callbacks(lengths))).MixStep?
    ensures Run(b, [Seek(pos)] + ([Play(false)] + Callbacks(lengths))).chunk
      == if Sum(lengths) < |b.data| - pos then b.data[pos..pos + Sum(lengths)] else b.data[pos..]
  {
    var from := Buffer(b.data, b.bits, true, false, pos);
    ModUnique(|b.data|, 0, pos, pos);
    assert WholeSamples(from);
    hide Run, PlayedOnce, Callbacks, Sum, GoodLengths, WholeSamples;
    PlaysFrom(b, pos, pos, false, Callbacks(lengths));
    PlaysOnce(from, lengths);
    OnceIs(from, lengths, Run(from, Callbacks(lengths)));
  }

  lemma OnceIs(b: Buffer, lengths: seq<nat>, r: MixStep)
    requires b.cursor <= |b.data| && PlayedOnce(b, lengths, r)
    ensures r.MixStep?
    ensures r.chunk
      == if Sum(lengths) < |b.data| - b.cursor then b.data[b.cursor..b.cursor + Sum(lengths)] else b.data[b.cursor..]
  {
    hide Sum;
  }
}
