/** Device-independent bitmaps byte by byte: which bytes of the data each output pixel is. */
module DibBytes {
  import opened LittleEndian
  import opened Dib

  /** The fields of a BITMAPINFOHEADER that matter. */
  datatype Layout = Layout(size: nat, width: int, height: int, bpp: nat, compression: nat, used: nat)

  /** The 16-bit little-endian number at `at`. */
  predicate Holds16(raw: Bytes, at: nat, v: int) {
    at + 2 <= |raw| && (raw[at] as int) + 0x100 * (raw[at + 1] as int) == v
  }

  /** The 32-bit little-endian number at `at`, in two's complement if negative. */
  predicate Holds32(raw: Bytes, at: nat, v: int) {
    && at + 4 <= |raw|
    && (raw[at] as int) + 0x100 * (raw[at + 1] as int) + 0x1_0000 * (raw[at + 2] as int)
       + 0x100_0000 * (raw[at + 3] as int) == (if v < 0 then v + 0x1_0000_0000 else v)
  }

  /** The header of the data is written out at its byte offsets. */
  predicate Describes(raw: Bytes, l: Layout) {
    && 40 <= |raw|
    && -0x8000_0000 <= l.width < 0x8000_0000 && -0x8000_0000 <= l.height < 0x8000_0000
    && Holds32(raw, 0, l.size) && Holds32(raw, 4, l.width) && Holds32(raw, 8, l.height)
    && Holds16(raw, 14, l.bpp) && Holds32(raw, 16, l.compression) && Holds32(raw, 32, l.used)
  }

  lemma ReadsWord(raw: Bytes, at: nat, v: int)
    requires Holds32(raw, at, v) && -0x8000_0000 <= v < 0x1_0000_0000
    ensures v >= 0 ==> Read32(raw, at) == v
    ensures v < 0x8000_0000 ==> AsSigned32(Read32(raw, at)) == v
  {
  }

  lemma HeaderRead(raw: Bytes, l: Layout)
    requires Describes(raw, l)
    ensures l.size < 0x1_0000_0000 && l.bpp < 0x1_0000 && l.compression < 0x1_0000_0000 && l.used < 0x1_0000_0000
    ensures ReadHeader(raw) == Header(l.size, l.width, l.height, l.bpp, l.compression, l.used)
  {
    ReadsWord(raw, 0, l.size);
    ReadsWord(raw, 4, l.width);
    ReadsWord(raw, 8, l.height);
    ReadsWord(raw, 16, l.compression);
    ReadsWord(raw, 32, l.used);
    hide Read32, AsSigned32, Holds32;
  }

  /** The colours of the palette, which follows the header: as many as the header
      says, or all the depth can tell apart; none for deep pixels. */
  function Entries(l: Layout): nat {
    if l.bpp > 8 then 0
    else if l.used > 0 then l.used
    else if l.bpp == 1 then 2 else if l.bpp == 4 then 16 else 256
  }

  /** The bytes of a row: whole DWORDs. */
  function RowSize(l: Layout): int {
    (l.width * l.bpp + 31) / 32 * 4
  }

  function Height(l: Layout): nat {
    if l.height < 0 then -l.height else l.height
  }

  /** Where the stored row of output row y starts, y counted from the top: rows are
      stored from the bottom up if the height is positive, from the top down if not. */
  function RowStart(l: Layout, y: nat): int {
    l.size + 4 * Entries(l) + (if l.height > 0 then l.height - 1 - y else y) * RowSize(l)
  }

  predicate KnownDepth(bpp: nat) {
    bpp == 1 || bpp == 4 || bpp == 8 || bpp == 24 || bpp == 32
  }

  /** Exactly these bitmaps are accepted. */
  lemma AcceptedIff(raw: Bytes, l: Layout)
    requires Describes(raw, l)
    ensures Parse(raw).Some? <==>
      && l.size >= 40 && l.compression == 0 && l.width > 0 && l.height != 0 && KnownDepth(l.bpp)
      && l.size + 4 * Entries(l) + RowSize(l) * Height(l) <= |raw|
    ensures Parse(raw).Some? ==> Parse(raw).value.width == l.width && Parse(raw).value.height == Height(l)
  {
    HeaderRead(raw, l);
    if KnownDepth(l.bpp) { EntriesAre(raw, l); }
    hide ReadHeader, OutputRows;
  }

  lemma EntriesAre(raw: Bytes, l: Layout)
    requires Describes(raw, l) && KnownDepth(l.bpp)
    ensures Colours(ReadHeader(raw)) == Entries(l)
  {
    HeaderRead(raw, l);
    Powers();
    assert Pow2(8) == 2 * Pow2(7);
    hide ReadHeader, Pow2;
  }

  // ---- One pixel ----

  /** The byte of its row that holds the number of pixel x. */
  function IndexByte(bpp: nat, x: nat): nat {
    if bpp == 8 then x else if bpp == 4 then x / 2 else x / 8
  }

  /** The number in that byte: all of it, or counted from the top a nibble or a bit. */
  function Index(b: Byte, bpp: nat, x: nat): nat {
    if bpp == 8 then b
    else if bpp == 4 then if x % 2 == 0 then b / 16 else b % 16
    else
      match x % 8
      case 0 => b / 128
      case 1 => b / 64 % 2
      case 2 => b / 32 % 2
      case 3 => b / 16 % 2
      case 4 => b / 8 % 2
      case 5 => b / 4 % 2
      case 6 => b / 2 % 2
      case _ => b % 2
  }

  /** Three bytes: blue, green, red. */
  predicate SameBytes(pixels: Bytes, at: int, raw: Bytes, from: int) {
    && 0 <= at && at + 3 <= |pixels| && 0 <= from && from + 3 <= |raw|
    && pixels[at] == raw[from] && pixels[at + 1] == raw[from + 1] && pixels[at + 2] == raw[from + 2]
  }

  predicate Black(pixels: Bytes, at: int) {
    0 <= at && at + 3 <= |pixels| && pixels[at] == 0 && pixels[at + 1] == 0 && pixels[at + 2] == 0
  }

  /** The three output bytes of a pixel, from the bytes of its row and of the palette;
      black for a number beyond the palette. */
  predicate IsPixel(pixels: Bytes, at: int, raw: Bytes, l: Layout, row: int, x: nat) {
    if l.bpp == 24 then SameBytes(pixels, at, raw, row + 3 * x)
    else if l.bpp == 32 then SameBytes(pixels, at, raw, row + 4 * x)
    else
      && 0 <= row && row + IndexByte(l.bpp, x) < |raw|
      && var i := Index(raw[row + IndexByte(l.bpp, x)], l.bpp, x);
         if i < Entries(l) then SameBytes(pixels, at, raw, l.size + 4 * i) else Black(pixels, at)
  }

  /** The header as it is read. */
  predicate Is(h: Header, l: Layout) {
    && h.size == l.size && h.width == l.width && h.height == l.height && h.bpp == l.bpp
    && h.compression == l.compression && h.used == l.used
  }

  lemma Accepted(raw: Bytes, l: Layout) returns (h: Header)
    requires Describes(raw, l) && Parse(raw).Some?
    ensures 40 <= |raw| && h == ReadHeader(raw) && Is(h, l) && Fits(raw, h) && Supported(h.bpp)
  {
    HeaderRead(raw, l);
    h := ReadHeader(raw);
    hide ReadHeader, OutputRows, Describes;
  }

  lemma EntriesOf(h: Header, l: Layout)
    requires Is(h, l) && Supported(h.bpp)
    ensures Colours(h) == Entries(l) && PixelStart(h) == l.size + 4 * Entries(l)
  {
    Powers();
    assert Pow2(8) == 2 * Pow2(7);
    hide Pow2;
  }

  lemma RowAt(raw: Bytes, h: Header, n: nat)
    requires Fits(raw, h) && n < Abs(h.height)
    ensures var at := PixelStart(h) + n * Stride(h.bpp, h.width);
      && 0 <= at && at + Stride(h.bpp, h.width) <= |raw|
      && RowBytes(raw, h, n) == raw[at..at + Stride(h.bpp, h.width)]
  {
    RowInside(raw, h, n);
    hide Stride, PixelStart, Fits;
    var from: int, stride: int := PixelStart(h) + n * Stride(h.bpp, h.width), Stride(h.bpp, h.width);
    assert from + stride == PixelStart(h) + (n + 1) * Stride(h.bpp, h.width);
  }

  /** The bytes of a stored row, where the layout puts them. */
  lemma RowIs(raw: Bytes, h: Header, l: Layout, y: nat)
    requires Is(h, l) && Fits(raw, h) && Supported(h.bpp) && y < Height(l)
    ensures y < Abs(h.height) && 0 <= RowStart(l, y) && 0 <= RowSize(l) && RowStart(l, y) + RowSize(l) <= |raw|
    ensures RowBytes(raw, h, SourceRow(h, y)) == raw[RowStart(l, y)..RowStart(l, y) + RowSize(l)]
  {
    EntriesOf(h, l);
    RowAt(raw, h, SourceRow(h, y));
    assert Stride(h.bpp, h.width) == RowSize(l);
    hide Stride, Entries, Colours, PixelStart, RowSize, Fits, RowBytes;
    var n: int := SourceRow(h, y);
    assert n == if l.height > 0 then l.height - 1 - y else y;
  }

  /** A number selects the palette entry at its place. */
  lemma EntryIs(raw: Bytes, h: Header, l: Layout, i: nat)
    requires Is(h, l) && Fits(raw, h) && Supported(h.bpp)
    ensures |Palette(raw, h)| == Entries(l)
    ensures i < Entries(l) ==>
      var at := l.size + 4 * i;
      at + 4 <= |raw| && Palette(raw, h)[i] == Colour(raw[at], raw[at + 1], raw[at + 2])
  {
    EntriesOf(h, l);
    hide Entries, Colours, Stride;
  }

  lemma LowBit(b: Byte, x: nat)
    ensures b / Pow2(7 - x % 8) % 2 == Index(b, 1, x)
  {
    Powers();
    hide Pow2;
  }

  /** Pixel x of the row has colour c, by the bytes of the row. */
  predicate InRow(row: Bytes, bpp: nat, palette: seq<Colour>, x: nat, c: Colour) {
    && (bpp == 24 ==> 3 * x + 3 <= |row| && c == Colour(row[3 * x], row[3 * x + 1], row[3 * x + 2]))
    && (bpp == 32 ==> 4 * x + 4 <= |row| && c == Colour(row[4 * x], row[4 * x + 1], row[4 * x + 2]))
    && (bpp <= 8 ==>
          IndexByte(bpp, x) < |row| && c == Lookup(palette, Index(row[IndexByte(bpp, x)], bpp, x)))
  }

  lemma PixelInRowIs(row: Bytes, bpp: nat, palette: seq<Colour>, width: nat, x: nat)
    requires Supported(bpp) && width * bpp <= 8 * |row| && x < width
    ensures InRow(row, bpp, palette, x, PixelInRow(row, width, bpp, palette, x))
  {
    hide Bits, Pow2;
    if bpp == 24 { Pixel24(row, palette, x); }
    else if bpp == 32 { Pixel32(row, palette, x); }
    else if bpp == 8 { Pixel8(row, palette, x); }
    else if bpp == 4 { Pixel4(row, palette, x); }
    else {
      Pixel1(row, palette, x);
      LowBit(row[x / 8], x);
    }
  }

  lemma DeepIs(pixels: Bytes, at: nat, c: Colour, raw: Bytes, start: nat, row: Bytes, k: nat)
    requires HasColour(pixels, at, c) && start + |row| <= |raw| && row == raw[start..start + |row|] && k + 3 <= |row|
    requires c == Colour(row[k], row[k + 1], row[k + 2])
    ensures SameBytes(pixels, at, raw, start + k)
  {
  }

  lemma ShallowIs(pixels: Bytes, at: nat, raw: Bytes, h: Header, l: Layout, i: nat)
    requires Is(h, l) && Fits(raw, h) && Supported(h.bpp) && HasColour(pixels, at, Lookup(Palette(raw, h), i))
    ensures if i < Entries(l) then SameBytes(pixels, at, raw, l.size + 4 * i) else Black(pixels, at)
  {
    EntryIs(raw, h, l, i);
    hide Palette, Entries, Fits, Supported;
  }

  /** A pixel of colour c in a row of the data. */
  lemma PixelIs(raw: Bytes, h: Header, l: Layout, start: nat, row: Bytes, x: nat, c: Colour, pixels: Bytes, at: nat)
    requires Is(h, l) && Fits(raw, h) && Supported(h.bpp) && HasColour(pixels, at, c)
    requires start + |row| <= |raw| && row == raw[start..start + |row|]
    requires InRow(row, h.bpp, Palette(raw, h), x, c)
    ensures IsPixel(pixels, at, raw, l, start, x)
  {
    hide Palette, Index, Entries, Fits, HasColour, SameBytes, Lookup, Black, IndexByte;
    if l.bpp == 24 {
      DeepIs(pixels, at, c, raw, start, row, 3 * x);
    } else if l.bpp == 32 {
      DeepIs(pixels, at, c, raw, start, row, 4 * x);
    } else {
      assert row[IndexByte(l.bpp, x)] == raw[start + IndexByte(l.bpp, x)];
      ShallowIs(pixels, at, raw, h, l, Index(row[IndexByte(l.bpp, x)], l.bpp, x));
    }
  }

  /** The colour of a pixel, by the bytes of its stored row. */
  lemma ColourOf(raw: Bytes, h: Header, x: nat, y: nat)
    requires Fits(raw, h) && Supported(h.bpp) && x < h.width && y < Abs(h.height)
    ensures InRow(RowBytes(raw, h, SourceRow(h, y)), h.bpp, Palette(raw, h), x, PixelOf(raw, h, x, y))
  {
    assert PixelStart(h) <= |raw|;
    hide RowBytes, Palette, SourceRow, PixelInRow, InRow, Stride, PixelStart, Fits;
    PixelInRowIs(RowBytes(raw, h, SourceRow(h, y)), h.bpp, Palette(raw, h), h.width, x);
  }

  lemma PixelOfRow(raw: Bytes, h: Header, l: Layout, x: nat, y: nat, pixels: Bytes, at: nat)
    requires Is(h, l) && Fits(raw, h) && Supported(h.bpp) && x < h.width && y < Height(l) && y < Abs(h.height)
    requires HasColour(pixels, at, PixelOf(raw, h, x, y))
    ensures IsPixel(pixels, at, raw, l, RowStart(l, y), x)
  {
    hide RowBytes, Palette, SourceRow, RowStart, RowSize, PixelOf, Fits, HasColour, IsPixel, InRow, Stride, PixelStart;
    RowIs(raw, h, l, y);
    ColourOf(raw, h, x, y);
    PixelIs(raw, h, l, RowStart(l, y), RowBytes(raw, h, SourceRow(h, y)), x, PixelOf(raw, h, x, y), pixels, at);
  }

  /** Every pixel of an accepted bitmap, top row first: its three bytes are the bytes
      of the data that its row, its place in the row and the palette say. */
  lemma PixelBytes(raw: Bytes, l: Layout, x: nat, y: nat)
    requires Describes(raw, l) && Parse(raw).Some? && x < l.width && y < Height(l)
    ensures var pixels := Parse(raw).value.pixels;
      |pixels| == 3 * l.width * Height(l) && IsPixel(pixels, 3 * (l.width * y + x), raw, l, RowStart(l, y), x)
  {
    AcceptedIff(raw, l);
    var h := Accepted(raw, l);
    hide Describes, Parse, ReadHeader, IsPixel, PixelOf, HasColour, Fits;
    PixelsExact(raw, x, y);
    PixelOfRow(raw, h, l, x, y, Parse(raw).value.pixels, 3 * (l.width * y + x));
  }
}
