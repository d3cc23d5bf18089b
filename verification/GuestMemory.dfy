/** Flat guest memory, a sequence of bytes: the bulk store and the little-endian
    32-bit accesses the handlers use, and what a read sees after a write to the
    same word, to another, or to none. */
module GuestMemory {

  import opened LittleEndian

  type Mem = Bytes

  /** `data` stored at `addr`. */
  function Stored(m: Mem, addr: int, data: seq<Byte>): (r: Mem)
    requires 0 <= addr && addr + |data| <= |m|
    ensures |r| == |m|
    ensures forall x :: 0 <= x < |m| ==> r[x] == if addr <= x < addr + |data| then data[x - addr] else m[x]
  {
    m[..addr] + data + m[addr + |data|..]
  }

  function Bytes32(v: int): (r: seq<Byte>)
    requires 0 <= v < 0x1_0000_0000
    ensures |r| == 4
  {
    [v % 0x100, v / 0x100 % 0x100, v / 0x1_0000 % 0x100, v / 0x100_0000]
  }

  function Written32(m: Mem, addr: int, v: int): (r: Mem)
    requires 0 <= addr && addr + 4 <= |m| && 0 <= v < 0x1_0000_0000
    ensures |r| == |m|
  {
    Stored(m, addr, Bytes32(v))
  }

  lemma WordParts(v: int)
    requires 0 <= v < 0x1_0000_0000
    ensures v % 0x100 + 0x100 * (v / 0x100 % 0x100) + 0x1_0000 * (v / 0x1_0000 % 0x100 + 0x100 * (v / 0x100_0000)) == v
  {
    var h, t := v / 0x100, v / 0x1_0000;
    assert v == 0x100 * h + v % 0x100 && h == 0x100 * t + h % 0x100 && t == 0x100 * (v / 0x100_0000) + t % 0x100;
  }

  lemma ReadBack(m: Mem, addr: int, v: int)
    requires 0 <= addr && addr + 4 <= |m| && 0 <= v < 0x1_0000_0000
    ensures Read32(Written32(m, addr, v), addr) == v
  {
    var r, b := Written32(m, addr, v), Bytes32(v);
    assert r[addr] == b[0] && r[addr + 1] == b[1] && r[addr + 2] == b[2] && r[addr + 3] == b[3];
    WordParts(v);
  }

  /** A word none of whose bytes changed reads the same. */
  lemma ReadSame(m: Mem, m': Mem, addr: int)
    requires 0 <= addr && addr + 4 <= |m| && |m'| == |m|
    requires forall x :: addr <= x < addr + 4 ==> m'[x] == m[x]
    ensures Read32(m', addr) == Read32(m, addr)
  {
    assert m'[addr] == m[addr] && m'[addr + 1] == m[addr + 1]
      && m'[addr + 2] == m[addr + 2] && m'[addr + 3] == m[addr + 3];
  }

  /** Words at distinct multiples of four do not overlap. */
  lemma ReadOther(m: Mem, addr: int, v: int, other: int)
    requires 0 <= addr && addr + 4 <= |m| && 0 <= v < 0x1_0000_0000
    requires 0 <= other && other + 4 <= |m|
    requires other + 4 <= addr || addr + 4 <= other
    ensures Read32(Written32(m, addr, v), other) == Read32(m, other)
  {
    ReadSame(m, Written32(m, addr, v), other);
  }
}
