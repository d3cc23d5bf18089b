/** Encoding dialog templates and string tables, and parsing them back. */
module DialogRoundTrip {
  import Numerals
  import opened DialogTemplate
  import opened Options
  import opened Lists
  import opened LittleEndian

  // ---- Bytes in their place ----

  /** raw holds these bytes at pos. */
  ghost predicate Holds(raw: Bytes, pos: nat, bytes: Bytes) {
    pos + |bytes| <= |raw| && forall k :: 0 <= k < |bytes| ==> raw[pos + k] == bytes[k]
  }

  /** raw holds these words at pos. */
  ghost predicate HoldsUnits(raw: Bytes, pos: nat, units: Text) {
    pos + 2 * |units| <= |raw| && forall k :: 0 <= k < |units| ==> Read16(raw, pos + 2 * k) == units[k]
  }

  lemma HoldsParts(raw: Bytes, pos: nat, a: Bytes, b: Bytes)
    requires Holds(raw, pos, a + b)
    ensures Holds(raw, pos, a) && Holds(raw, pos + |a|, b)
  {
    forall k | 0 <= k < |a| ensures raw[pos + k] == a[k] {
      assert (a + b)[k] == a[k];
    }
    forall k | 0 <= k < |b| ensures raw[pos + |a| + k] == b[k] {
      assert (a + b)[|a| + k] == b[k];
    }
  }

  lemma UnitParts(u: Unit)
    ensures u % 0x100 + 0x100 * (u / 0x100) == u
  {
  }

  lemma HoldsWords(raw: Bytes, pos: nat, units: Text)
    requires Holds(raw, pos, Units(units))
    ensures HoldsUnits(raw, pos, units)
  {
    forall k | 0 <= k < |units| ensures Read16(raw, pos + 2 * k) == units[k] {
      var b := Units(units);
      assert raw[pos + 2 * k] == b[2 * k] && raw[pos + (2 * k + 1)] == b[2 * k + 1];
      UnitParts(units[k]);
    }
  }

  // ---- Fields ----

  /** A menu, class or title to be encoded. */
  datatype Field = Name(text: Text) | Ordinal(number: Unit)

  /** A name without zeros; a first unit of 0xFFFF would read as an ordinal. */
  predicate GoodText(t: Text) {
    forall k :: 0 <= k < |t| ==> t[k] != 0
  }

  predicate GoodField(f: Field) {
    f.Name? ==> GoodText(f.text) && (f.text != [] ==> f.text[0] != 0xFFFF)
  }

  function FieldUnits(f: Field): Text {
    match f
    case Name(t) => t + [0]
    case Ordinal(n) => [0xFFFF, n]
  }

  /** What a parser reports for a field. */
  function Shown(f: Field): Text {
    match f
    case Name(t) => t
    case Ordinal(n) => OrdinalText(n)
  }

  function EncodeField(f: Field): Bytes {
    Units(FieldUnits(f))
  }

  lemma {:induction false} TextReads(raw: Bytes, pos: nat, text: Text)
    requires GoodText(text) && HoldsUnits(raw, pos, text + [0])
    ensures ReadText(raw, pos) == (text, pos + 2 * |text| + 2)
    decreases |text|
  {
    var all := text + [0];
    assert Read16(raw, pos + 2 * 0) == all[0];
    if text != [] {
      var rest := text[1..];
      forall k | 0 <= k < |rest + [0]| ensures Read16(raw, pos + 2 + 2 * k) == (rest + [0])[k] {
        assert Read16(raw, pos + 2 * (k + 1)) == all[k + 1];
        assert pos + 2 * (k + 1) == pos + 2 + 2 * k;
      }
      TextReads(raw, pos + 2, rest);
      assert [text[0]] + rest == text;
    }
  }

  lemma FieldReads(raw: Bytes, pos: nat, f: Field)
    requires GoodField(f) && Holds(raw, pos, EncodeField(f))
    ensures ReadField(raw, pos) == (Shown(f), pos + |EncodeField(f)|)
  {
    var units := FieldUnits(f);
    HoldsWords(raw, pos, units);
    assert Read16(raw, pos + 2 * 0) == units[0];
    match f
    case Ordinal(n) =>
      assert Read16(raw, pos + 2 * 1) == units[1];
    case Name(t) =>
      TextReads(raw, pos, t);
  }

  // ---- Controls ----

  datatype Item = Item(style: Word32, exStyle: Word32, x: Int16, y: Int16, cx: Int16, cy: Int16, id: Unit,
                       cls: Field, title: Field, extra: Bytes)

  predicate GoodItem(i: Item) {
    GoodField(i.cls) && GoodField(i.title) && |i.extra| < 0x1_0000
  }

  function Low(w: Word32): Unit { w % 0x1_0000 }

  function High(w: Word32): Unit { w / 0x1_0000 }

  function ItemHeader(i: Item): Text {
    [Low(i.style), High(i.style), Low(i.exStyle), High(i.exStyle),
     AsUnsigned(i.x), AsUnsigned(i.y), AsUnsigned(i.cx), AsUnsigned(i.cy), i.id]
  }

  function EncodeBody(i: Item): Bytes
    requires GoodItem(i)
  {
    Units(ItemHeader(i)) + (EncodeField(i.cls) + (EncodeField(i.title) + (Units([|i.extra|]) + i.extra)))
  }

  /** Filled with zeros to a DWORD boundary. */
  function Padded(b: Bytes): (r: Bytes)
    ensures |r| == Align4(|b|)
  {
    b + Repeat<Byte>(0, Align4(|b|) - |b|)
  }

  function EncodeItem(i: Item): (b: Bytes)
    requires GoodItem(i)
    ensures |b| % 4 == 0
  {
    Padded(EncodeBody(i))
  }

  function ParsedItem(i: Item): Control {
    Control(i.id, ResolveClass(Shown(i.cls)), Shown(i.title), i.x, i.y, i.cx, i.cy, i.style, i.exStyle)
  }

  lemma SignedBack(i: Int16)
    ensures AsSigned(AsUnsigned(i)) == i
  {
  }

  lemma Read32Is(raw: Bytes, pos: nat, w: Word32)
    requires pos + 4 <= |raw| && Read16(raw, pos) == Low(w) && Read16(raw, pos + 2) == High(w)
    ensures Read32(raw, pos) == w
  {
  }

  lemma HeaderReads(raw: Bytes, pos: nat, i: Item)
    requires Holds(raw, pos, Units(ItemHeader(i)))
    ensures pos + 18 <= |raw| && Read32(raw, pos) == i.style && Read32(raw, pos + 4) == i.exStyle
    ensures Signed16(raw, pos + 8) == i.x && Signed16(raw, pos + 10) == i.y
    ensures Signed16(raw, pos + 12) == i.cx && Signed16(raw, pos + 14) == i.cy && Read16(raw, pos + 16) == i.id
  {
    var h := ItemHeader(i);
    HoldsWords(raw, pos, h);
    hide Units, Read16, Read32;
    assert Read16(raw, pos + 2 * 0) == h[0] && Read16(raw, pos + 2 * 1) == h[1];
    assert Read16(raw, pos + 2 * 2) == h[2] && Read16(raw, pos + 2 * 3) == h[3];
    assert Read16(raw, pos + 2 * 4) == h[4] && Read16(raw, pos + 2 * 5) == h[5];
    assert Read16(raw, pos + 2 * 6) == h[6] && Read16(raw, pos + 2 * 7) == h[7];
    assert Read16(raw, pos + 2 * 8) == h[8];
    Read32Is(raw, pos, i.style);
    Read32Is(raw, pos + 4, i.exStyle);
    SignedBack(i.x);
    SignedBack(i.y);
    SignedBack(i.cx);
    SignedBack(i.cy);
  }

  lemma AlignShift(pos: nat, n: nat)
    requires pos % 4 == 0
    ensures Align4(pos + n) == pos + Align4(n)
  {
  }

  /** Where the parts of an item lie. */
  lemma ItemParts(raw: Bytes, pos: nat, i: Item) returns (pos1: nat, pos2: nat)
    requires GoodItem(i) && Holds(raw, pos, EncodeBody(i))
    ensures pos1 == pos + 18 + |EncodeField(i.cls)| && pos2 == pos1 + |EncodeField(i.title)|
    ensures Holds(raw, pos, Units(ItemHeader(i))) && Holds(raw, pos + 18, EncodeField(i.cls))
    ensures Holds(raw, pos1, EncodeField(i.title))
    ensures pos2 + 2 <= |raw| && Read16(raw, pos2) == |i.extra|
    ensures pos + |EncodeBody(i)| == pos2 + 2 + |i.extra|
  {
    var a, b, c, d := Units(ItemHeader(i)), EncodeField(i.cls), EncodeField(i.title), Units([|i.extra|]);
    HoldsParts(raw, pos, a, b + (c + (d + i.extra)));
    hide Units, EncodeField, ItemHeader, Holds;
    pos1 := pos + 18 + |b|;
    pos2 := pos1 + |c|;
    HoldsParts(raw, pos + 18, b, c + (d + i.extra));
    HoldsParts(raw, pos1, c, d + i.extra);
    HoldsParts(raw, pos2, d, i.extra);
    CountReads(raw, pos2, |i.extra|);
  }

  lemma CountReads(raw: Bytes, pos: nat, n: Unit)
    requires Holds(raw, pos, Units([n]))
    ensures pos + 2 <= |raw| && Read16(raw, pos) == n
  {
    HoldsWords(raw, pos, [n]);
    assert Read16(raw, pos + 2 * 0) == [n][0];
  }

  /** One encoded control parses to itself, and the next one starts after it. */
  lemma ItemReads(raw: Bytes, pos: nat, i: Item)
    requires GoodItem(i) && pos % 4 == 0 && Holds(raw, pos, EncodeItem(i))
    ensures ParseControl(raw, pos) == Some((ParsedItem(i), pos + |EncodeItem(i)|))
  {
    hide Units, EncodeField, EncodeBody, ReadField, Holds, Read16, Read32, Signed16, ResolveClass, Shown, ItemHeader;
    var body := EncodeBody(i);
    HoldsParts(raw, pos, body, Repeat<Byte>(0, Align4(|body|) - |body|));
    var pos1, pos2 := ItemParts(raw, pos, i);
    HeaderReads(raw, pos, i);
    FieldReads(raw, pos + 18, i.cls);
    FieldReads(raw, pos1, i.title);
    AlignShift(pos, |body|);
  }

  function EncodeItems(items: seq<Item>): (b: Bytes)
    requires forall k :: 0 <= k < |items| ==> GoodItem(items[k])
    ensures |b| % 4 == 0
  {
    if items == [] then [] else EncodeItem(items[0]) + EncodeItems(items[1..])
  }

  function ParsedItems(items: seq<Item>): seq<Control> {
    seq(|items|, k requires 0 <= k < |items| => ParsedItem(items[k]))
  }

  lemma {:induction false} ItemsRead(raw: Bytes, pos: nat, items: seq<Item>)
    requires forall k :: 0 <= k < |items| ==> GoodItem(items[k])
    requires pos % 4 == 0 && Holds(raw, pos, EncodeItems(items))
    ensures ParseControls(raw, pos, |items|) == Some(ParsedItems(items))
    decreases |items|
  {
    hide ParseControl, EncodeItem, Holds, ParsedItem;
    if items != [] {
      HoldsParts(raw, pos, EncodeItem(items[0]), EncodeItems(items[1..]));
      ItemReads(raw, pos, items[0]);
      ItemsRead(raw, pos + |EncodeItem(items[0])|, items[1..]);
      assert [ParsedItem(items[0])] + ParsedItems(items[1..]) == ParsedItems(items);
    }
  }

  // ---- Templates ----

  datatype Font = Font(point: Unit, name: Text)

  datatype Template = Template(style: Word32, exStyle: Word32, x: Int16, y: Int16, cx: Int16, cy: Int16,
                               menu: Field, wndClass: Field, title: Field, font: Option<Font>, items: seq<Item>)

  /** Bit 6 of the style says whether there is a font. */
  predicate GoodTemplate(t: Template) {
    && GoodField(t.menu) && GoodField(t.wndClass) && GoodField(t.title) && GoodFont(t)
    && |t.items| < 0x1_0000 && forall k :: 0 <= k < |t.items| ==> GoodItem(t.items[k])
  }

  predicate GoodFont(t: Template) {
    (t.font.Some? <==> t.style % 0x80 >= 0x40) && (t.font.Some? ==> GoodText(t.font.value.name))
  }

  function TemplateHeader(t: Template): Text
    requires GoodTemplate(t)
  {
    [Low(t.style), High(t.style), Low(t.exStyle), High(t.exStyle), |t.items|,
     AsUnsigned(t.x), AsUnsigned(t.y), AsUnsigned(t.cx), AsUnsigned(t.cy)]
  }

  function EncodeFont(t: Template): Bytes {
    match t.font case Some(f) => Units([f.point]) + Units(f.name + [0]) case None => []
  }

  function EncodeHead(t: Template): Bytes
    requires GoodTemplate(t)
  {
    Units(TemplateHeader(t))
    + (EncodeField(t.menu) + (EncodeField(t.wndClass) + (EncodeField(t.title) + EncodeFont(t))))
  }

  /** A DLGTEMPLATE: head and controls, each on a DWORD boundary. */
  function Encode(t: Template): Bytes
    requires GoodTemplate(t)
  {
    Padded(EncodeHead(t)) + EncodeItems(t.items)
  }

  function ParsedTemplate(t: Template): Dialog {
    Dialog(Shown(t.title), t.x, t.y, t.cx, t.cy, t.style,
           if t.font.Some? then t.font.value.name else [], if t.font.Some? then t.font.value.point else 0,
           ParsedItems(t.items))
  }

  lemma TemplateHeaderReads(raw: Bytes, t: Template)
    requires GoodTemplate(t) && Holds(raw, 0, Units(TemplateHeader(t)))
    ensures 18 <= |raw| && Read32(raw, 0) == t.style && Read16(raw, 8) == |t.items|
    ensures Signed16(raw, 10) == t.x && Signed16(raw, 12) == t.y && Signed16(raw, 14) == t.cx
    ensures Signed16(raw, 16) == t.cy
  {
    var h := TemplateHeader(t);
    HoldsWords(raw, 0, h);
    hide Units, Read16, Read32;
    assert Read16(raw, 0 + 2 * 0) == h[0] && Read16(raw, 0 + 2 * 1) == h[1] && Read16(raw, 0 + 2 * 4) == h[4];
    assert Read16(raw, 0 + 2 * 5) == h[5] && Read16(raw, 0 + 2 * 6) == h[6];
    assert Read16(raw, 0 + 2 * 7) == h[7] && Read16(raw, 0 + 2 * 8) == h[8];
    Read32Is(raw, 0, t.style);
    SignedBack(t.x);
    SignedBack(t.y);
    SignedBack(t.cx);
    SignedBack(t.cy);
  }

  lemma FontReads(raw: Bytes, pos: nat, t: Template)
    requires GoodFont(t) && Holds(raw, pos, EncodeFont(t))
    ensures ReadFont(raw, pos, t.style)
      == Some((if t.font.Some? then t.font.value.point else 0,
               if t.font.Some? then t.font.value.name else [], pos + |EncodeFont(t)|))
  {
    FontBit(t.style);
    if t.font.Some? {
      var f := t.font.value;
      HoldsParts(raw, pos, Units([f.point]), Units(f.name + [0]));
      CountReads(raw, pos, f.point);
      HoldsWords(raw, pos + 2, f.name + [0]);
      TextReads(raw, pos + 2, f.name);
    }
  }

  lemma FontBit(style: Word32)
    ensures HasFont(style) <==> style % 0x80 >= 0x40
  {
    assert style / 0x40 == 2 * (style / 0x80) + style % 0x80 / 0x40;
  }

  lemma HoldsFive(raw: Bytes, a: Bytes, b: Bytes, c: Bytes, d: Bytes, e: Bytes)
    requires Holds(raw, 0, a + (b + (c + (d + e))))
    ensures Holds(raw, 0, a) && Holds(raw, |a|, b) && Holds(raw, |a| + |b|, c) && Holds(raw, |a| + |b| + |c|, d)
    ensures Holds(raw, |a| + |b| + |c| + |d|, e)
  {
    hide Holds;
    HoldsParts(raw, 0, a, b + (c + (d + e)));
    HoldsParts(raw, |a|, b, c + (d + e));
    HoldsParts(raw, |a| + |b|, c, d + e);
    HoldsParts(raw, |a| + |b| + |c|, d, e);
  }

  /** The parser reads f at pos and goes on at end. */
  ghost predicate ReadsField(raw: Bytes, pos: nat, f: Field, end: nat) {
    ReadField(raw, pos) == (Shown(f), end)
  }

  lemma FieldBetween(raw: Bytes, pos: nat, f: Field, bytes: Bytes, end: nat)
    requires GoodField(f) && bytes == EncodeField(f) && Holds(raw, pos, bytes) && end == pos + |bytes|
    ensures ReadsField(raw, pos, f, end)
  {
    hide Holds, EncodeField, Shown, ReadField, GoodField;
    FieldReads(raw, pos, f);
  }

  lemma HeadIs(t: Template)
    requires GoodTemplate(t)
    ensures |Units(TemplateHeader(t))| == 18
    ensures EncodeHead(t)
      == Units(TemplateHeader(t))
         + (EncodeField(t.menu) + (EncodeField(t.wndClass) + (EncodeField(t.title) + EncodeFont(t))))
    ensures GoodField(t.menu) && GoodField(t.wndClass) && GoodField(t.title)
  {
    hide EncodeField, EncodeFont;
  }

  /** Where the fields of a template end. */
  lemma HeadReads(raw: Bytes, t: Template) returns (pos1: nat, pos2: nat, pos3: nat)
    requires GoodTemplate(t) && Holds(raw, 0, EncodeHead(t))
    ensures Holds(raw, 0, Units(TemplateHeader(t)))
    ensures ReadsField(raw, 18, t.menu, pos1) && ReadsField(raw, pos1, t.wndClass, pos2)
    ensures ReadsField(raw, pos2, t.title, pos3)
    ensures Holds(raw, pos3, EncodeFont(t)) && pos3 + |EncodeFont(t)| == |EncodeHead(t)|
  {
    HeadIs(t);
    hide Units, EncodeField, EncodeFont, TemplateHeader, Holds, ReadsField, GoodField, GoodFont, EncodeHead;
    var a, b, c, d, e := Units(TemplateHeader(t)), EncodeField(t.menu), EncodeField(t.wndClass),
      EncodeField(t.title), EncodeFont(t);
    HoldsFive(raw, a, b, c, d, e);
    pos1 := 18 + |b|;
    pos2 := pos1 + |c|;
    pos3 := pos2 + |d|;
    FieldBetween(raw, 18, t.menu, b, pos1);
    FieldBetween(raw, pos1, t.wndClass, c, pos2);
    FieldBetween(raw, pos2, t.title, d, pos3);
  }

  /** Whatever follows it, an encoded template parses back: title, position, style,
      font and every control in order. */
  lemma DialogRoundTrips(t: Template, raw: Bytes)
    requires GoodTemplate(t) && Holds(raw, 0, Encode(t))
    ensures ParseDialog(raw) == Some(ParsedTemplate(t))
  {
    hide EncodeHead, EncodeItems, ParseControls, ReadField, ReadFont, Holds, Read16,
      Read32, Signed16, Units, ParsedItems, Shown, EncodeFont, TemplateHeader;
    var head := EncodeHead(t);
    HoldsParts(raw, 0, Padded(head), EncodeItems(t.items));
    HoldsParts(raw, 0, head, Repeat<Byte>(0, Align4(|head|) - |head|));
    var pos1, pos2, pos3 := HeadReads(raw, t);
    TemplateHeaderReads(raw, t);
    FontReads(raw, pos3, t);
    ItemsRead(raw, Align4(|head|), t.items);
  }

  // ---- Ordinals and texts ----

  lemma {:induction false} DecimalIsLiteral(s: string)
    requires s != "" && forall k :: 0 <= k < |s| ==> '0' <= s[k] <= '9'
    ensures PythonInt.Literal(Ascii(s)) && PythonInt.Worth(Ascii(s)) == Numerals.Value(s, 10)
    decreases |s|
  {
    var t := Ascii(s);
    assert forall k :: 0 <= k < |t| ==> PythonInt.Digit(t[k]) == Some(Numerals.DigitValue(s[k]));
    var rest := s[..|s| - 1];
    assert t[..|t| - 1] == Ascii(rest);
    if rest != "" {
      DecimalIsLiteral(rest);
    } else {
      assert PythonInt.Worth(Ascii("")) == 0;
    }
  }

  /** "#N" is the number N to int(). */
  lemma OrdinalTextReads(n: nat)
    ensures OrdinalText(n) != [] && OrdinalText(n)[0] == HASH && PythonInt.Int(OrdinalText(n)[1..]) == Some(n)
  {
    var s := Numerals.ToBase(n, 10);
    DigitsAreAscii(n);
    Numerals.ToBaseDigits(n, 10);
    Numerals.ValueToBase(n, 10);
    DecimalIsLiteral(s);
    assert OrdinalText(n)[1..] == Ascii(s);
    assert Ascii(s) == [] + [] + Ascii(s) + [];
    PythonInt.WrittenReads(Ascii(s), [], [], Ascii(s), [], n);
  }

  /** Two different fields are reported alike exactly if one is an ordinal and the
      other its text. */
  lemma ShownAlikeIff(f: Field, g: Field)
    requires f != g
    ensures Shown(f) == Shown(g) <==>
      || (f.Ordinal? && g == Name(OrdinalText(f.number)))
      || (g.Ordinal? && f == Name(OrdinalText(g.number)))
  {
    if f.Ordinal? && g.Ordinal? {
      OrdinalTextReads(f.number);
      OrdinalTextReads(g.number);
    }
  }

  /** A class field that names the control class n: the ordinal, or a text that
      writes it after '#'. */
  ghost predicate NamesClass(f: Field, n: nat) {
    match f
    case Ordinal(m) => m == n
    case Name(t) =>
      && t != [] && t[0] == HASH
      && exists front, sign, body, back :: PythonInt.Writes(t[1..], front, sign, body, back, n)
  }

  /** Exactly these fields are resolved, to the name of the class; every other stays
      as it is. */
  lemma ResolvedIff(f: Field)
    ensures forall n: nat :: ControlClass(n).Some? && NamesClass(f, n) ==>
      ResolveClass(Shown(f)) == Ascii(ControlClass(n).value)
    ensures (forall n: nat :: ControlClass(n).Some? ==> !NamesClass(f, n)) ==> ResolveClass(Shown(f)) == Shown(f)
    ensures (exists n: nat :: ControlClass(n).Some? && NamesClass(f, n)) ==> ResolveClass(Shown(f)) != Shown(f)
  {
    hide ControlClass, ResolveClass, NamesClass, Shown;
    forall n: nat | ControlClass(n).Some? && NamesClass(f, n)
      ensures ResolveClass(Shown(f)) == Ascii(ControlClass(n).value) && ResolveClass(Shown(f)) != Shown(f)
    {
      NamedIsResolved(f, n);
    }
    if ResolveClass(Shown(f)) != Shown(f) {
      var n := ResolvedIsNamed(f);
    }
  }

  const CLASS_NAMES: seq<string> := ["BUTTON", "EDIT", "STATIC", "LISTBOX", "SCROLLBAR", "COMBOBOX"]

  /** The six classes from 0x80 on, given by ordinal or by a number after '#'. */
  lemma ClassNames(n: nat, text: Text, front: Text, sign: Text, body: Text, back: Text)
    requires n < 6 && text != [] && text[0] == '#' as int
    requires PythonInt.Writes(text[1..], front, sign, body, back, 0x80 + n)
    ensures forall k :: 0 <= k < |CLASS_NAMES[n]| ==> CLASS_NAMES[n][k] < 128 as char
    ensures ResolveClass(text) == Ascii(CLASS_NAMES[n])
    ensures ResolveClass(Shown(Ordinal(0x80 + n))) == Ascii(CLASS_NAMES[n])
  {
    assert ControlClass(0x80 + n) == Some(CLASS_NAMES[n]);
    NamedIsResolved(Ordinal(0x80 + n), 0x80 + n);
    NamedIsResolved(Name(text), 0x80 + n);
  }

  lemma NamedIsResolved(f: Field, n: nat)
    requires ControlClass(n).Some? && NamesClass(f, n)
    ensures ResolveClass(Shown(f)) == Ascii(ControlClass(n).value) && ResolveClass(Shown(f)) != Shown(f)
  {
    hide ControlClass;
    if f.Ordinal? {
      OrdinalTextReads(f.number);
    } else {
      var front, sign, body, back :| PythonInt.Writes(f.text[1..], front, sign, body, back, n);
      PythonInt.WrittenReads(f.text[1..], front, sign, body, back, n);
    }
    assert Ascii(ControlClass(n).value)[0] != HASH;
  }

  lemma ResolvedIsNamed(f: Field) returns (n: nat)
    requires ResolveClass(Shown(f)) != Shown(f)
    ensures ControlClass(n).Some? && NamesClass(f, n)
  {
    n := PythonInt.Int(Shown(f)[1..]).value;
    match f
    case Ordinal(m) => OrdinalTextReads(m);
    case Name(t) =>
      var front, sign, body, back := PythonInt.ReadIsWritten(t[1..], n);
  }

  /** Every control takes at least 20 bytes, so a parsed dialog holds no more than
      its data allow. */
  lemma {:induction false} ControlsFit(raw: Bytes, pos: nat, count: nat)
    requires count > 0 && ParseControls(raw, pos, count).Some? && pos % 4 == 0
    ensures pos + 20 * (count - 1) + 18 <= |raw|
    decreases count
  {
    var next := ParseControl(raw, pos).value.1;
    assert next >= pos + 20;
    if count > 1 { ControlsFit(raw, next, count - 1); }
  }

  // ---- String tables ----

  /** The entry of one string: its length and its units. */
  function EncodeString(s: Text): Bytes
    requires |s| < 0x1_0000
  {
    Units([|s|] + s)
  }

  function EncodeBlock(strings: seq<Text>): Bytes
    requires forall k :: 0 <= k < |strings| ==> |strings[k]| < 0x1_0000
  {
    if strings == [] then [] else EncodeString(strings[0]) + EncodeBlock(strings[1..])
  }

  /** struct.unpack_from("<nH", raw, pos) */
  function UnitsAt(raw: Bytes, pos: nat, n: nat): (t: Text)
    requires pos + 2 * n <= |raw|
    ensures |t| == n && forall k :: 0 <= k < n ==> t[k] == Read16(raw, pos + 2 * k)
  {
    seq(n, k requires 0 <= k < n => Read16(raw, pos + 2 * k))
  }

  /** The loop of find_string from entry i at pos. */
  function FindEntry(raw: Bytes, pos: nat, i: nat, index: nat): Option<Text>
    requires i <= 16
    decreases 16 - i
  {
    if i == 16 || pos + 2 > |raw| then None
    else
      var length := Read16(raw, pos);
      if i == index then
        if length == 0 then Some([])
        else if pos + 2 + length * 2 > |raw| then None
        else Some(UnitsAt(raw, pos + 2, length))
      else FindEntry(raw, pos + 2 + length * 2, i + 1, index)
  }

  /** find_string, given the resource's blocks. */
  function FindString(blocks: map<nat, Bytes>, id: nat): Option<Text> {
    var block := id / 16 + 1;
    if block in blocks then FindEntry(blocks[block], 0, 0, id % 16) else None
  }

  method FindStringLoop(blocks: map<nat, Bytes>, id: nat) returns (r: Option<Text>)
    ensures r == FindString(blocks, id)
  {
    var block, index := id / 16 + 1, id % 16;
    if block !in blocks { return None; }
    var raw := blocks[block];
    var pos: nat := 0;
    for i := 0 to 16
      invariant FindEntry(raw, 0, 0, index) == FindEntry(raw, pos, i, index)
    {
      if pos + 2 > |raw| { return None; }
      var length: nat := Read16(raw, pos);
      pos := pos + 2;
      if i == index {
        if length == 0 { return Some([]); }
        if pos + length * 2 > |raw| { return None; }
        return Some(UnitsAt(raw, pos, length));
      }
      pos := pos + length * 2;
    }
    r := None;
  }

  lemma StringReads(raw: Bytes, pos: nat, s: Text)
    requires |s| < 0x1_0000 && Holds(raw, pos, EncodeString(s))
    ensures pos + 2 + 2 * |s| <= |raw| && Read16(raw, pos) == |s|
    ensures forall k :: 0 <= k < |s| ==> Read16(raw, pos + 2 + 2 * k) == s[k]
  {
    var units := [|s|] + s;
    HoldsWords(raw, pos, units);
    assert Read16(raw, pos + 2 * 0) == units[0];
    forall k | 0 <= k < |s| ensures Read16(raw, pos + 2 + 2 * k) == s[k] {
      assert Read16(raw, pos + 2 * (k + 1)) == units[k + 1];
      assert pos + 2 * (k + 1) == pos + 2 + 2 * k;
    }
  }

  lemma {:induction false} EntryFound(raw: Bytes, pos: nat, strings: seq<Text>, i: nat, index: nat)
    requires forall k :: 0 <= k < |strings| ==> |strings[k]| < 0x1_0000
    requires i <= index < 16 && index - i < |strings| && Holds(raw, pos, EncodeBlock(strings))
    ensures FindEntry(raw, pos, i, index) == Some(strings[index - i])
    decreases index - i
  {
    hide Read16, Holds, Units;
    HoldsParts(raw, pos, EncodeString(strings[0]), EncodeBlock(strings[1..]));
    StringReads(raw, pos, strings[0]);
    if i == index {
      assert UnitsAt(raw, pos + 2, |strings[0]|) == strings[0];
    } else {
      EntryFound(raw, pos + 2 + |strings[0]| * 2, strings[1..], i + 1, index);
    }
  }

  /** Strings packed 16 to a block are found again by their ids, whatever follows
      the block. */
  lemma StringFound(blocks: map<nat, Bytes>, strings: seq<Text>, id: nat)
    requires |strings| == 16 && forall k :: 0 <= k < 16 ==> |strings[k]| < 0x1_0000
    requires id / 16 + 1 in blocks && Holds(blocks[id / 16 + 1], 0, EncodeBlock(strings))
    ensures FindString(blocks, id) == Some(strings[id % 16])
  {
    EntryFound(blocks[id / 16 + 1], 0, strings, 0, id % 16);
  }
}
