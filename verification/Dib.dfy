/** parse_dib and _decode_row: device-independent bitmaps to BGR24 pixels. */
module Dib {
  import opened LittleEndian
  import opened Options

  // ---- Header ----

  /** What parse_dib takes from the BITMAPINFOHEADER. */
  datatype Header = Header(size: Word32, width: Int32, height: Int32, bpp: Unit, compression: Word32, used: Word32)

  function ReadHeader(raw: Bytes): Header
    requires 40 <= |raw|
  {
    Header(Read32(raw, 0), AsSigned32(Read32(raw, 4)), AsSigned32(Read32(raw, 8)),
      Read16(raw, 14), Read32(raw, 16), Read32(raw, 32))
  }

  function Pow2(n: nat): (p: nat)
    ensures p > 0
  {
    if n == 0 then 1 else 2 * Pow2(n - 1)
  }

  function Abs(i: int): nat { if i < 0 then -i else i }

  /** Palette entries the header announces; none above 8 bits a pixel. */
  function Colours(h: Header): nat {
    if h.bpp > 8 then 0 else if h.used > 0 then h.used else Pow2(h.bpp)
  }

  function PixelStart(h: Header): nat { h.size + 4 * Colours(h) }

  /** Bytes in a row, padded to a DWORD. */
  function Stride(bpp: nat, width: nat): nat { (bpp * width + 31) / 32 * 4 }

  predicate Supported(bpp: nat) {
    bpp == 1 || bpp == 4 || bpp == 8 || bpp == 24 || bpp == 32
  }

  /** What parse_dib asks of the header and the length. */
  predicate Fits(raw: Bytes, h: Header) {
    && 40 <= h.size && h.compression == 0 && h.width > 0 && h.height != 0
    && PixelStart(h) + Stride(h.bpp, h.width) * Abs(h.height) <= |raw|
  }

  predicate Accepts(raw: Bytes) {
    40 <= |raw| && Fits(raw, ReadHeader(raw))
  }

  // ---- Pixels, bit by bit ----

  /** Bit o of a row, counting from the top bit of its first byte. */
  function Bit(row: Bytes, o: nat): nat
    requires o < 8 * |row|
  {
    row[o / 8] / Pow2(7 - o % 8) % 2
  }

  /** The number in the n bits from o. */
  function Bits(row: Bytes, o: nat, n: nat): nat
    requires o + n <= 8 * |row|
  {
    if n == 0 then 0 else 2 * Bits(row, o, n - 1) + Bit(row, o + n - 1)
  }

  datatype Colour = Colour(b: Byte, g: Byte, r: Byte)

  const BLACK := Colour(0, 0, 0)

  /** Pixel x of a row: the colour its bits select, black beyond the palette, or
      the three bytes they are. */
  function RowPixel(row: Bytes, bpp: nat, palette: seq<Colour>, x: nat): Colour
    requires (x + 1) * bpp <= 8 * |row|
    requires bpp > 8 ==> bpp >= 24
  {
    if bpp <= 8 then
      var v := Bits(row, x * bpp, bpp);
      if v < |palette| then palette[v] else BLACK
    else
      Colour(Bits(row, x * bpp, 8) % 0x100, Bits(row, x * bpp + 8, 8) % 0x100, Bits(row, x * bpp + 16, 8) % 0x100)
  }

  /** Pixel x of a row that holds width pixels. */
  function PixelInRow(row: Bytes, width: nat, bpp: nat, palette: seq<Colour>, x: nat): Colour
    requires Supported(bpp) && width * bpp <= 8 * |row| && x < width
  {
    Within(width, x, bpp);
    RowPixel(row, bpp, palette, x)
  }

  lemma Within(width: nat, x: nat, bpp: nat)
    requires x < width
    ensures (x + 1) * bpp <= width * bpp && x * bpp + bpp == (x + 1) * bpp
  {
    assert width * bpp == (x + 1) * bpp + (width - (x + 1)) * bpp;
  }

  lemma BitsOne(row: Bytes, o: nat)
    requires o < 8 * |row|
    ensures Bits(row, o, 1) == row[o / 8] / Pow2(7 - o % 8) % 2
  {
    assert Bits(row, o, 0) == 0;
  }

  lemma Powers()
    ensures Pow2(0) == 1 && Pow2(1) == 2 && Pow2(2) == 4 && Pow2(3) == 8
    ensures Pow2(4) == 16 && Pow2(5) == 32 && Pow2(6) == 64 && Pow2(7) == 128
  {
    assert Pow2(3) == 8;
    assert Pow2(5) == 32;
  }

  lemma Half(n: nat)
    ensures n == 2 * (n / 2) + n % 2 && 0 <= n % 2 <= 1
  {
  }

  lemma Halves(b: nat)
    ensures b / 4 == b / 2 / 2 && b / 8 == b / 4 / 2 && b / 16 == b / 8 / 2
  {
  }

  /** A nibble is four bits. */
  lemma LowNibble(b: nat)
    ensures b % 16 == 8 * (b / 8 % 2) + 4 * (b / 4 % 2) + 2 * (b / 2 % 2) + b % 2
  {
    Halves(b);
    Half(b);
    Half(b / 2);
    Half(b / 4);
    Half(b / 8);
    assert b == 16 * (b / 16) + (8 * (b / 8 % 2) + 4 * (b / 4 % 2) + 2 * (b / 2 % 2) + b % 2);
  }

  lemma Sixteenths(b: Byte)
    ensures b / 32 == b / 16 / 2 && b / 64 == b / 16 / 4 && b / 128 == b / 16 / 8
    ensures b / 16 % 16 == b / 16
  {
  }

  lemma HighNibble(b: Byte)
    ensures b / 16 == 8 * (b / 128 % 2) + 4 * (b / 64 % 2) + 2 * (b / 32 % 2) + b / 16 % 2
  {
    Sixteenths(b);
    LowNibble(b / 16);
  }

  lemma BitsFour(row: Bytes, o: nat)
    requires o + 4 <= 8 * |row|
    ensures Bits(row, o, 4) == 8 * Bit(row, o) + 4 * Bit(row, o + 1) + 2 * Bit(row, o + 2) + Bit(row, o + 3)
  {
    assert Bits(row, o, 0) == 0;
    assert Bits(row, o, 1) == Bit(row, o);
    assert Bits(row, o, 2) == 2 * Bit(row, o) + Bit(row, o + 1);
    assert Bits(row, o, 3) == 4 * Bit(row, o) + 2 * Bit(row, o + 1) + Bit(row, o + 2);
  }

  lemma BitOfByte(row: Bytes, i: nat, k: nat)
    requires i < |row| && k < 8
    ensures Bit(row, 8 * i + k) == row[i] / Pow2(7 - k) % 2
  {
    assert (8 * i + k) / 8 == i && (8 * i + k) % 8 == k;
  }

  /** The halves of a byte. */
  lemma Nibbles(row: Bytes, i: nat)
    requires i < |row|
    ensures Bits(row, 8 * i, 4) == row[i] / 16 && Bits(row, 8 * i + 4, 4) == row[i] % 16
  {
    Powers();
    hide Bit, Bits, Pow2;
    BitsFour(row, 8 * i);
    BitsFour(row, 8 * i + 4);
    HighNibble(row[i]);
    LowNibble(row[i]);
    BitOfByte(row, i, 0);
    BitOfByte(row, i, 1);
    BitOfByte(row, i, 2);
    BitOfByte(row, i, 3);
    BitOfByte(row, i, 4);
    BitOfByte(row, i, 5);
    BitOfByte(row, i, 6);
    BitOfByte(row, i, 7);
  }

  lemma BitsEight(row: Bytes, o: nat)
    requires o + 8 <= 8 * |row|
    ensures Bits(row, o, 8) == 16 * Bits(row, o, 4) + Bits(row, o + 4, 4)
  {
    BitsFour(row, o + 4);
    assert Bits(row, o, 5) == 2 * Bits(row, o, 4) + Bit(row, o + 4);
    assert Bits(row, o, 6) == 4 * Bits(row, o, 4) + 2 * Bit(row, o + 4) + Bit(row, o + 5);
    assert Bits(row, o, 7) == 8 * Bits(row, o, 4) + 4 * Bit(row, o + 4) + 2 * Bit(row, o + 5) + Bit(row, o + 6);
  }

  /** Eight bits from a byte boundary are the byte. */
  lemma WholeByte(row: Bytes, i: nat)
    requires i < |row|
    ensures Bits(row, 8 * i, 8) == row[i]
  {
    hide Bit, Bits;
    BitsEight(row, 8 * i);
    Nibbles(row, i);
  }

  // ---- One row ----

  /** What _decode_row returns for a row long enough. */
  function RowPixels(row: Bytes, width: nat, bpp: nat, palette: seq<Colour>): (r: Bytes)
    requires Supported(bpp) && width * bpp <= 8 * |row|
    ensures |r| == 3 * width
    decreases width
  {
    if width == 0 then [] else
      Within(width, width - 1, bpp);
      var c := RowPixel(row, bpp, palette, width - 1);
      RowPixels(row, width - 1, bpp, palette) + [c.b, c.g, c.r]
  }

  /** Pixel x is where three bytes a pixel put it. */
  lemma {:induction false} RowPixelAt(row: Bytes, width: nat, bpp: nat, palette: seq<Colour>, x: nat)
    requires Supported(bpp) && width * bpp <= 8 * |row| && x < width
    ensures var r := RowPixels(row, width, bpp, palette); var c := PixelInRow(row, width, bpp, palette, x);
      r[3 * x] == c.b && r[3 * x + 1] == c.g && r[3 * x + 2] == c.r
    decreases width
  {
    hide RowPixel;
    Within(width, x, bpp);
    Within(width, width - 1, bpp);
    if x < width - 1 {
      RowPixelAt(row, width - 1, bpp, palette, x);
    }
  }

  /** What _decode_row makes of one row: nothing if it is too short. */
  function RowResult(row: Bytes, width: nat, bpp: nat, palette: seq<Colour>): Option<Bytes> {
    if Supported(bpp) && width * bpp <= 8 * |row| then Some(RowPixels(row, width, bpp, palette)) else None
  }

  /** The pixels before i are done, the rest still black. */
  ghost predicate Filled(result: Bytes, row: Bytes, bpp: nat, palette: seq<Colour>, width: nat, i: nat)
    requires Supported(bpp) && i <= width
  {
    && |result| == 3 * width && i * bpp <= 8 * |row|
    && result[..3 * i] == RowPixels(row, i, bpp, palette)
    && forall k :: 3 * i <= k < 3 * width ==> result[k] == 0
  }

  /** result[3 * i..3 * i + 3] = c */
  method SetPixel(result: array<Byte>, i: nat, c: Colour)
    requires 3 * i + 3 <= result.Length
    modifies result
    ensures result[..] == old(result[..])[3 * i := c.b][3 * i + 1 := c.g][3 * i + 2 := c.r]
  {
    result[3 * i], result[3 * i + 1], result[3 * i + 2] := c.b, c.g, c.r;
  }

  lemma FillOne(before: Bytes, after: Bytes, row: Bytes, bpp: nat, palette: seq<Colour>, width: nat, i: nat, c: Colour)
    requires Supported(bpp) && i < width && Filled(before, row, bpp, palette, width, i)
    requires (i + 1) * bpp <= 8 * |row| && c == RowPixel(row, bpp, palette, i)
    requires after == before[3 * i := c.b][3 * i + 1 := c.g][3 * i + 2 := c.r]
    ensures Filled(after, row, bpp, palette, width, i + 1)
  {
    hide RowPixel;
    assert after[..3 * (i + 1)] == before[..3 * i] + [c.b, c.g, c.r];
  }

  function Lookup(palette: seq<Colour>, v: nat): Colour {
    if v < |palette| then palette[v] else BLACK
  }

  lemma Pixel4(row: Bytes, palette: seq<Colour>, i: nat)
    requires i / 2 < |row|
    ensures (i + 1) * 4 <= 8 * |row|
    ensures RowPixel(row, 4, palette, i) == Lookup(palette, if i % 2 == 0 then row[i / 2] / 16 else row[i / 2] % 16)
  {
    Nibbles(row, i / 2);
    assert i * 4 == if i % 2 == 0 then 8 * (i / 2) else 8 * (i / 2) + 4;
  }

  lemma Pixel8(row: Bytes, palette: seq<Colour>, i: nat)
    requires i < |row|
    ensures RowPixel(row, 8, palette, i) == Lookup(palette, row[i])
  {
    WholeByte(row, i);
  }

  lemma Pixel1(row: Bytes, palette: seq<Colour>, i: nat)
    requires i / 8 < |row|
    ensures i + 1 <= 8 * |row|
    ensures RowPixel(row, 1, palette, i) == Lookup(palette, row[i / 8] / Pow2(7 - i % 8) % 2)
  {
    BitsOne(row, i);
  }

  lemma Pixel24(row: Bytes, palette: seq<Colour>, i: nat)
    requires 3 * i + 3 <= |row|
    ensures RowPixel(row, 24, palette, i) == Colour(row[3 * i], row[3 * i + 1], row[3 * i + 2])
  {
    hide Bits;
    WholeByte(row, 3 * i);
    WholeByte(row, 3 * i + 1);
    WholeByte(row, 3 * i + 2);
    assert i * 24 == 8 * (3 * i) && i * 24 + 8 == 8 * (3 * i + 1) && i * 24 + 16 == 8 * (3 * i + 2);
  }

  lemma Pixel32(row: Bytes, palette: seq<Colour>, i: nat)
    requires 4 * i + 4 <= |row|
    ensures RowPixel(row, 32, palette, i) == Colour(row[4 * i], row[4 * i + 1], row[4 * i + 2])
  {
    hide Bits;
    WholeByte(row, 4 * i);
    WholeByte(row, 4 * i + 1);
    WholeByte(row, 4 * i + 2);
    assert i * 32 == 8 * (4 * i) && i * 32 + 8 == 8 * (4 * i + 1) && i * 32 + 16 == 8 * (4 * i + 2);
  }

  /** bytearray(width * 3) */
  method NewRow(width: nat) returns (result: array<Byte>)
    ensures fresh(result) && result.Length == 3 * width && forall k :: 0 <= k < 3 * width ==> result[k] == 0
  {
    result := new Byte[3 * width](k => 0);
  }

  lemma {:induction false} Row24(row: Bytes, width: nat, palette: seq<Colour>)
    requires 3 * width <= |row|
    ensures RowPixels(row, width, 24, palette) == row[..3 * width]
    decreases width
  {
    hide RowPixel;
    if width > 0 {
      Row24(row, width - 1, palette);
      Pixel24(row, palette, width - 1);
      assert row[..3 * width] == row[..3 * (width - 1)] + [row[3 * width - 3], row[3 * width - 2], row[3 * width - 1]];
    }
  }

  method Decode32(row: Bytes, width: nat, palette: seq<Colour>) returns (r: Option<Bytes>)
    ensures r == RowResult(row, width, 32, palette)
  {
    hide RowPixel;
    if |row| < width * 4 { return None; }
    var result := NewRow(width);
    for i := 0 to width
      invariant Filled(result[..], row, 32, palette, width, i)
    {
      ghost var before := result[..];
      Pixel32(row, palette, i);
      var c := Colour(row[i * 4], row[i * 4 + 1], row[i * 4 + 2]);
      SetPixel(result, i, c);
      FillOne(before, result[..], row, 32, palette, width, i, c);
    }
    assert result[..] == result[..3 * width];
    r := Some(result[..]);
  }

  method Decode8(row: Bytes, width: nat, palette: seq<Colour>) returns (r: Option<Bytes>)
    ensures r == RowResult(row, width, 8, palette)
  {
    hide RowPixel;
    if |row| < width { return None; }
    var result := NewRow(width);
    for i := 0 to width
      invariant Filled(result[..], row, 8, palette, width, i)
    {
      ghost var before := result[..];
      Pixel8(row, palette, i);
      if row[i] < |palette| {
        SetPixel(result, i, palette[row[i]]);
      } else {
        StaysBlack(before, row, 8, palette, width, i);
      }
      FillOne(before, result[..], row, 8, palette, width, i, Lookup(palette, row[i]));
    }
    assert result[..] == result[..3 * width];
    r := Some(result[..]);
  }

  lemma StaysBlack(before: Bytes, row: Bytes, bpp: nat, palette: seq<Colour>, width: nat, i: nat)
    requires Supported(bpp) && i < width && Filled(before, row, bpp, palette, width, i)
    ensures before == before[3 * i := 0][3 * i + 1 := 0][3 * i + 2 := 0]
  {
  }

  method Decode4(row: Bytes, width: nat, palette: seq<Colour>) returns (r: Option<Bytes>)
    ensures r == RowResult(row, width, 4, palette)
  {
    hide RowPixel;
    var result := NewRow(width);
    for i := 0 to width
      invariant Filled(result[..], row, 4, palette, width, i)
    {
      if i / 2 >= |row| { return None; }
      ghost var before := result[..];
      Pixel4(row, palette, i);
      var nibble := if i % 2 == 0 then row[i / 2] / 16 else row[i / 2] % 16;
      if nibble < |palette| {
        SetPixel(result, i, palette[nibble]);
      } else {
        StaysBlack(before, row, 4, palette, width, i);
      }
      FillOne(before, result[..], row, 4, palette, width, i, Lookup(palette, nibble));
    }
    assert result[..] == result[..3 * width];
    r := Some(result[..]);
  }

  method Decode1(row: Bytes, width: nat, palette: seq<Colour>) returns (r: Option<Bytes>)
    ensures r == RowResult(row, width, 1, palette)
  {
    hide RowPixel;
    var result := NewRow(width);
    for i := 0 to width
      invariant Filled(result[..], row, 1, palette, width, i)
    {
      if i / 8 >= |row| { return None; }
      ghost var before := result[..];
      Pixel1(row, palette, i);
      var bit := row[i / 8] / Pow2(7 - i % 8) % 2;
      if bit < |palette| {
        SetPixel(result, i, palette[bit]);
      } else {
        StaysBlack(before, row, 1, palette, width, i);
      }
      FillOne(before, result[..], row, 1, palette, width, i, Lookup(palette, bit));
    }
    assert result[..] == result[..3 * width];
    r := Some(result[..]);
  }

  method DecodeRow(row: Bytes, width: nat, bpp: nat, palette: seq<Colour>) returns (r: Option<Bytes>)
    ensures r == RowResult(row, width, bpp, palette)
  {
    hide RowPixel;
    if bpp == 24 {
      if |row| < width * 3 { return None; }
      Row24(row, width, palette);
      r := Some(row[..3 * width]);
    } else if bpp == 32 {
      r := Decode32(row, width, palette);
    } else if bpp == 8 {
      r := Decode8(row, width, palette);
    } else if bpp == 4 {
      r := Decode4(row, width, palette);
    } else if bpp == 1 {
      r := Decode1(row, width, palette);
    } else {
      r := None;
    }
  }

  // ---- The whole bitmap ----

  datatype Bitmap = Bitmap(width: nat, height: nat, pixels: Bytes)

  function ReadColour(raw: Bytes, off: nat): Colour
    requires off + 4 <= |raw|
  {
    Colour(raw[off], raw[off + 1], raw[off + 2])
  }

  function Palette(raw: Bytes, h: Header): (p: seq<Colour>)
    requires PixelStart(h) <= |raw|
    ensures |p| == Colours(h)
  {
    seq(Colours(h), i requires 0 <= i < Colours(h) => ReadColour(raw, h.size + 4 * i))
  }

  /** Where output row y comes from. */
  function SourceRow(h: Header, y: nat): (n: nat)
    requires y < Abs(h.height)
    ensures n < Abs(h.height)
  {
    if h.height > 0 then Abs(h.height) - 1 - y else y
  }

  /** The bytes of row n of the pixel data. */
  function RowBytes(raw: Bytes, h: Header, n: nat): (row: Bytes)
    requires Fits(raw, h) && n < Abs(h.height)
    ensures |row| == Stride(h.bpp, h.width) && h.width * h.bpp <= 8 * |row|
  {
    RowInside(raw, h, n);
    StrideHolds(h.bpp, h.width);
    raw[PixelStart(h) + n * Stride(h.bpp, h.width)..PixelStart(h) + (n + 1) * Stride(h.bpp, h.width)]
  }

  lemma RowOffset(n: nat, rows: nat, stride: nat)
    requires n < rows
    ensures n * stride + stride == (n + 1) * stride <= rows * stride
  {
    assert rows * stride == (n + 1) * stride + (rows - (n + 1)) * stride;
  }

  lemma RowInside(raw: Bytes, h: Header, n: nat)
    requires Fits(raw, h) && n < Abs(h.height)
    ensures n * Stride(h.bpp, h.width) + Stride(h.bpp, h.width) == (n + 1) * Stride(h.bpp, h.width)
    ensures PixelStart(h) + (n + 1) * Stride(h.bpp, h.width) <= |raw|
  {
    RowOffset(n, Abs(h.height), Stride(h.bpp, h.width));
    hide Stride, PixelStart;
  }

  /** The stride holds every pixel of a row and less than 32 spare bits. */
  lemma StrideHolds(bpp: nat, width: nat)
    ensures bpp * width <= 8 * Stride(bpp, width) < bpp * width + 32 && Stride(bpp, width) % 4 == 0
  {
  }

  /** The rows of the output before y, one after another. */
  function OutputRows(raw: Bytes, h: Header, y: nat): (r: Bytes)
    requires Fits(raw, h) && Supported(h.bpp) && y <= Abs(h.height)
    decreases y
  {
    if y == 0 then []
    else OutputRows(raw, h, y - 1) + RowPixels(RowBytes(raw, h, SourceRow(h, y - 1)), h.width, h.bpp, Palette(raw, h))
  }

  /** parse_dib */
  function Parse(raw: Bytes): Option<Bitmap> {
    if Accepts(raw) && Supported(ReadHeader(raw).bpp) then
      var h := ReadHeader(raw);
      Some(Bitmap(h.width, Abs(h.height), OutputRows(raw, h, Abs(h.height))))
    else None
  }

  /** The palette loop: stops at the first entry cut short. */
  method ReadPalette(raw: Bytes, h: Header) returns (palette: seq<Colour>)
    ensures PixelStart(h) <= |raw| ==> palette == Palette(raw, h)
  {
    palette := [];
    for i := 0 to Colours(h)
      invariant |palette| == i
      invariant forall k :: 0 <= k < i ==> h.size + 4 * k + 4 <= |raw| && palette[k] == ReadColour(raw, h.size + 4 * k)
    {
      var off := h.size + i * 4;
      if off + 4 > |raw| { return; }
      palette := palette + [ReadColour(raw, off)];
    }
  }

  method ParseDib(raw: Bytes) returns (r: Option<Bitmap>)
    ensures r == Parse(raw)
  {
    hide ReadHeader, Palette, OutputRows, RowPixels;
    if |raw| < 40 { return None; }
    var h := ReadHeader(raw);
    if h.size < 40 || h.compression != 0 || h.width <= 0 || h.height == 0 { return None; }
    var palette := ReadPalette(raw, h);
    var stride := Stride(h.bpp, h.width);
    if |raw| < PixelStart(h) + stride * Abs(h.height) { return None; }
    var pixels := ParseRows(raw, h, palette);
    if pixels.None? { return None; }
    r := Some(Bitmap(h.width, Abs(h.height), pixels.value));
  }

  /** The loop over the output rows. */
  method ParseRows(raw: Bytes, h: Header, palette: seq<Colour>) returns (r: Option<Bytes>)
    requires Fits(raw, h) && palette == Palette(raw, h)
    ensures r == if Supported(h.bpp) then Some(OutputRows(raw, h, Abs(h.height))) else None
  {
    hide Palette, RowPixels, Stride, PixelStart;
    var pixels: Bytes := [];
    for y := 0 to Abs(h.height)
      invariant y > 0 ==> Supported(h.bpp)
      invariant Supported(h.bpp) ==> pixels == OutputRows(raw, h, y)
    {
      var n := SourceRow(h, y);
      var row := RowBytes(raw, h, n);
      var decoded := DecodeRow(row, h.width, h.bpp, palette);
      if decoded.None? { return None; }
      pixels := pixels + decoded.value;
    }
    r := Some(pixels);
  }

  // ---- Pixel by pixel ----

  /** The colour at (x, y), top row first, read from the bits of the bitmap. */
  function PixelOf(raw: Bytes, h: Header, x: nat, y: nat): Colour
    requires Fits(raw, h) && Supported(h.bpp) && x < h.width && y < Abs(h.height)
  {
    PixelInRow(RowBytes(raw, h, SourceRow(h, y)), h.width, h.bpp, Palette(raw, h), x)
  }

  /** Where the bytes of pixel (x, y) start. */
  function PixelOffset(width: nat, x: nat, y: nat): nat {
    3 * (width * y + x)
  }

  lemma OneRowMore(w: nat, n: nat)
    requires n > 0
    ensures PixelOffset(w, 0, n) == PixelOffset(w, 0, n - 1) + 3 * w
  {
    assert w * n == w * (n - 1) + w;
  }

  lemma {:induction false} RowsLength(raw: Bytes, h: Header, y: nat)
    requires Fits(raw, h) && Supported(h.bpp) && y <= Abs(h.height)
    ensures |OutputRows(raw, h, y)| == PixelOffset(h.width, 0, y)
    decreases y
  {
    hide RowPixels, RowBytes, Palette, Stride, PixelStart;
    if y > 0 {
      RowsLength(raw, h, y - 1);
      OneRowMore(h.width, y);
    }
  }

  ghost predicate HasColour(r: Bytes, at: nat, c: Colour) {
    at + 3 <= |r| && r[at] == c.b && r[at + 1] == c.g && r[at + 2] == c.r
  }

  lemma HasColourAfter(a: Bytes, b: Bytes, at: nat, c: Colour)
    ensures HasColour(a, at, c) ==> HasColour(a + b, at, c)
    ensures HasColour(b, at, c) ==> HasColour(a + b, |a| + at, c)
  {
  }

  lemma {:induction false} RowsHold(raw: Bytes, h: Header, n: nat, x: nat, y: nat)
    requires Fits(raw, h) && Supported(h.bpp) && x < h.width && y < n <= Abs(h.height)
    ensures HasColour(OutputRows(raw, h, n), PixelOffset(h.width, x, y), PixelOf(raw, h, x, y))
    decreases n
  {
    hide RowPixels, RowBytes, Palette, PixelInRow, Stride, PixelStart, HasColour;
    var last := RowPixels(RowBytes(raw, h, SourceRow(h, n - 1)), h.width, h.bpp, Palette(raw, h));
    if y < n - 1 {
      RowsHold(raw, h, n - 1, x, y);
      HasColourAfter(OutputRows(raw, h, n - 1), last, PixelOffset(h.width, x, y), PixelOf(raw, h, x, y));
    } else {
      RowsLength(raw, h, n - 1);
      LastRow(raw, h, x, y);
      HasColourAfter(OutputRows(raw, h, n - 1), last, 3 * x, PixelOf(raw, h, x, y));
    }
  }

  lemma LastRow(raw: Bytes, h: Header, x: nat, y: nat)
    requires Fits(raw, h) && Supported(h.bpp) && x < h.width && y < Abs(h.height)
    ensures HasColour(RowPixels(RowBytes(raw, h, SourceRow(h, y)), h.width, h.bpp, Palette(raw, h)),
      3 * x, PixelOf(raw, h, x, y))
  {
    hide RowBytes, Palette, Stride, PixelStart, RowPixels, PixelInRow;
    RowPixelAt(RowBytes(raw, h, SourceRow(h, y)), h.width, h.bpp, Palette(raw, h), x);
  }

  /** An accepted bitmap has width times height pixels of three bytes, and each is
      the colour its bits select. */
  lemma PixelsExact(raw: Bytes, x: nat, y: nat)
    requires Parse(raw).Some? && x < Parse(raw).value.width && y < Parse(raw).value.height
    ensures var b := Parse(raw).value;
      && |b.pixels| == 3 * b.width * b.height
      && HasColour(b.pixels, PixelOffset(b.width, x, y), PixelOf(raw, ReadHeader(raw), x, y))
  {
    hide ReadHeader, OutputRows, PixelOf, HasColour;
    RowsLength(raw, ReadHeader(raw), Abs(ReadHeader(raw).height));
    RowsHold(raw, ReadHeader(raw), Abs(ReadHeader(raw).height), x, y);
  }

  /** The same bitmap stored the other way up: the height negated, the rows in the
      opposite order, the palette the same. */
  ghost predicate Twins(raw: Bytes, h: Header, twin: Bytes, t: Header) {
    && Fits(raw, h) && Fits(twin, t)
    && t == h.(height := t.height) && t.height + h.height == 0
    && Palette(twin, t) == Palette(raw, h)
    && forall n :: 0 <= n < Abs(h.height) ==> RowBytes(twin, t, n) == RowBytes(raw, h, Abs(h.height) - 1 - n)
  }

  lemma {:induction false} RowsAlike(raw: Bytes, h: Header, twin: Bytes, t: Header, y: nat)
    requires Twins(raw, h, twin, t) && Supported(h.bpp) && y <= Abs(h.height)
    ensures OutputRows(twin, t, y) == OutputRows(raw, h, y)
    decreases y
  {
    hide RowBytes, Palette, RowPixels, Stride, PixelStart;
    if y > 0 {
      RowsAlike(raw, h, twin, t, y - 1);
      var n := SourceRow(t, y - 1);
      assert SourceRow(h, y - 1) == Abs(h.height) - 1 - n;
      assert RowBytes(twin, t, n) == RowBytes(raw, h, Abs(h.height) - 1 - n);
    }
  }

  /** Both orientations of a bitmap give the same picture. */
  lemma OrientationDoesNotMatter(raw: Bytes, twin: Bytes)
    requires 40 <= |raw| && 40 <= |twin| && Twins(raw, ReadHeader(raw), twin, ReadHeader(twin))
    ensures Parse(twin) == Parse(raw)
  {
    hide ReadHeader, OutputRows, RowBytes, Palette, Stride, PixelStart;
    var h := ReadHeader(raw);
    if Supported(h.bpp) { RowsAlike(raw, h, twin, ReadHeader(twin), Abs(h.height)); }
  }
}
