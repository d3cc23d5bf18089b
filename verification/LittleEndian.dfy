/** Little-endian integers in byte strings, as struct.unpack_from reads them. */
module LittleEndian {
  type Byte = b: nat | b < 0x100
  type Unit = u: nat | u < 0x1_0000
  type Word32 = w: nat | w < 0x1_0000_0000
  type Int16 = i: int | -0x8000 <= i < 0x8000
  type Int32 = i: int | -0x8000_0000 <= i < 0x8000_0000
  type Bytes = seq<Byte>

  function Read16(raw: Bytes, pos: nat): Unit
    requires pos + 2 <= |raw|
  {
    var low: nat, high: nat := raw[pos], raw[pos + 1];
    low + 0x100 * high
  }

  function Read32(raw: Bytes, pos: nat): Word32
    requires pos + 4 <= |raw|
  {
    var low: nat, high: nat := Read16(raw, pos), Read16(raw, pos + 2);
    low + 0x1_0000 * high
  }

  function AsSigned(u: Unit): Int16 {
    if u < 0x8000 then u else u - 0x1_0000
  }

  function AsUnsigned(i: Int16): Unit {
    if i < 0 then i + 0x1_0000 else i
  }

  function AsSigned32(w: Word32): Int32 {
    if w < 0x8000_0000 then w else w - 0x1_0000_0000
  }

  /** v & 0xFFFFFFFF */
  function ToWord(v: int): Word32 {
    v % 0x1_0000_0000
  }
}
