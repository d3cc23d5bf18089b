/** Dialog templates and string tables of PE resources: the parsers of
    pe_resources.py, on the raw resource bytes. */
module DialogTemplate {
  import Numerals
  import PythonInt
  import opened LittleEndian
  import opened Options

  /** A text of UTF-16 units; Python keeps one character for each. */
  type Text = seq<Unit>

  function Units(units: Text): (b: Bytes)
    ensures |b| == 2 * |units|
  {
    seq(2 * |units|, k requires 0 <= k < 2 * |units| =>
      if k % 2 == 0 then units[k / 2] % 0x100 else units[k / 2] / 0x100)
  }

  /** (pos + 3) & ~3 */
  function Align4(pos: nat): (r: nat)
    ensures r % 4 == 0 && pos <= r < pos + 4
  {
    (pos + 3) / 4 * 4
  }

  // ---- Parsing ----

  /** A zero-terminated text, or what there is of one, and the position after it. */
  function ReadText(raw: Bytes, pos: nat): (r: (Text, nat))
    ensures pos <= r.1 && (pos <= |raw| ==> r.1 <= |raw|)
    decreases |raw| - pos
  {
    if pos + 2 > |raw| then ([], pos)
    else if Read16(raw, pos) == 0 then ([], pos + 2)
    else
      var (rest, end) := ReadText(raw, pos + 2);
      ([Read16(raw, pos)] + rest, end)
  }

  /** The characters of a Python literal or number, as units. */
  function Ascii(s: string): (t: Text)
    requires forall k :: 0 <= k < |s| ==> s[k] < 128 as char
    ensures |t| == |s| && forall k :: 0 <= k < |s| ==> t[k] == s[k] as nat
  {
    seq(|s|, k requires 0 <= k < |s| => s[k] as nat)
  }

  lemma DigitsAreAscii(n: nat)
    ensures forall k :: 0 <= k < |Numerals.ToBase(n, 10)| ==> '0' <= Numerals.ToBase(n, 10)[k] <= '9'
  {
    var s := Numerals.ToBase(n, 10);
    Numerals.ToBaseDigits(n, 10);
    forall k | 0 <= k < |s| ensures '0' <= s[k] <= '9' {
      assert Numerals.DigitValue(s[k]) < 10;
    }
  }

  /** "#N" */
  function OrdinalText(n: nat): Text {
    DigitsAreAscii(n);
    [HASH] + Ascii(Numerals.ToBase(n, 10))
  }

  /** A menu, class or title: nothing, an ordinal, or a text. */
  function ReadField(raw: Bytes, pos: nat): (r: (Text, nat))
    ensures pos <= r.1 && (pos <= |raw| ==> r.1 <= |raw|)
  {
    if pos + 2 > |raw| then ([], pos)
    else if Read16(raw, pos) == 0 then ([], pos + 2)
    else if Read16(raw, pos) == 0xFFFF then
      if pos + 4 > |raw| then ([], pos + 2) else (OrdinalText(Read16(raw, pos + 2)), pos + 4)
    else
      var (rest, end) := ReadText(raw, pos + 2);
      ([Read16(raw, pos)] + rest, end)
  }

  /** _CTRL_CLASS */
  function ControlClass(n: nat): (name: Option<string>)
    ensures name.Some? <==> 0x80 <= n <= 0x85
    ensures name.Some? ==> name.value != "" && forall k :: 0 <= k < |name.value| ==> 'A' <= name.value[k] <= 'Z'
  {
    match n
    case 0x80 => Some("BUTTON")
    case 0x81 => Some("EDIT")
    case 0x82 => Some("STATIC")
    case 0x83 => Some("LISTBOX")
    case 0x84 => Some("SCROLLBAR")
    case 0x85 => Some("COMBOBOX")
    case _ => None
  }

  /** "#" */
  const HASH: Unit := 35

  /** _resolve_class_name */
  function ResolveClass(t: Text): Text {
    if t == [] || t[0] != HASH then t
    else
      match PythonInt.Int(t[1..])
      case None => t
      case Some(n) => if n >= 0 && ControlClass(n).Some? then Ascii(ControlClass(n).value) else t
  }

  datatype Control = Control(id: Unit, className: Text, title: Text, x: Int16, y: Int16, cx: Int16, cy: Int16,
                             style: Word32, exStyle: Word32)

  function Signed16(raw: Bytes, pos: nat): Int16
    requires pos + 2 <= |raw|
  {
    AsSigned(Read16(raw, pos))
  }

  function ParseControl(raw: Bytes, pos: nat): (r: Option<(Control, nat)>)
    ensures r.Some? ==> pos + 18 <= |raw| && r.value.1 % 4 == 0 && pos + 18 < r.value.1
  {
    if pos + 18 > |raw| then None
    else
      var (cls, pos1) := ReadField(raw, pos + 18);
      var (title, pos2) := ReadField(raw, pos1);
      if pos2 + 2 > |raw| then None
      else
        var next := Align4(pos2 + 2 + Read16(raw, pos2));
        Some((Control(Read16(raw, pos + 16), ResolveClass(cls), title,
                      Signed16(raw, pos + 8), Signed16(raw, pos + 10), Signed16(raw, pos + 12), Signed16(raw, pos + 14),
                      Read32(raw, pos), Read32(raw, pos + 4)), next))
  }

  function ParseControls(raw: Bytes, pos: nat, count: nat): Option<seq<Control>>
    decreases count
  {
    if count == 0 then Some([])
    else
      match ParseControl(raw, pos)
      case None => None
      case Some((control, next)) =>
        match ParseControls(raw, next, count - 1)
        case None => None
        case Some(rest) => Some([control] + rest)
  }

  datatype Dialog = Dialog(title: Text, x: Int16, y: Int16, cx: Int16, cy: Int16, style: Word32,
                           fontName: Text, fontPoint: Unit, controls: seq<Control>)

  /** style & DS_SETFONT */
  predicate HasFont(style: Word32) {
    style / 0x40 % 2 == 1
  }

  /** The font size and name at pos, if the style has them; none if cut short. */
  function ReadFont(raw: Bytes, pos: nat, style: Word32): (r: Option<(Unit, Text, nat)>) {
    if !HasFont(style) then Some((0, [], pos))
    else if pos + 2 > |raw| then None
    else
      var (name, end) := ReadText(raw, pos + 2);
      Some((Read16(raw, pos), name, end))
  }

  function ParseDialog(raw: Bytes): Option<Dialog> {
    if |raw| < 18 then None
    else
      var style := Read32(raw, 0);
      var (menu, pos1) := ReadField(raw, 18);
      var (wndClass, pos2) := ReadField(raw, pos1);
      var (title, pos3) := ReadField(raw, pos2);
      match ReadFont(raw, pos3, style)
      case None => None
      case Some((point, name, end)) =>
        match ParseControls(raw, Align4(end), Read16(raw, 8))
        case None => None
        case Some(controls) =>
          Some(Dialog(title, Signed16(raw, 10), Signed16(raw, 12), Signed16(raw, 14), Signed16(raw, 16),
                      style, name, point, controls))
  }

  // ---- The loops ----

  /** The loop of _read_utf16_str, also the end of _read_var_field. */
  method ReadUtf16(raw: Bytes, start: nat) returns (chars: Text, pos: nat)
    ensures (chars, pos) == ReadText(raw, start)
  {
    chars, pos := [], start;
    assert [] + ReadText(raw, start).0 == ReadText(raw, start).0;
    while pos + 2 <= |raw|
      invariant start <= pos
      invariant ReadText(raw, start) == (chars + ReadText(raw, pos).0, ReadText(raw, pos).1)
      decreases |raw| - pos
    {
      var code := Read16(raw, pos);
      if code == 0 {
        assert chars + [] == chars;
        return chars, pos + 2;
      }
      assert chars + ([code] + ReadText(raw, pos + 2).0) == chars + [code] + ReadText(raw, pos + 2).0;
      chars, pos := chars + [code], pos + 2;
    }
    assert chars + [] == chars;
  }

  method ReadVarField(raw: Bytes, start: nat) returns (text: Text, pos: nat)
    ensures (text, pos) == ReadField(raw, start)
  {
    if start + 2 > |raw| { return [], start; }
    var first := Read16(raw, start);
    if first == 0 { return [], start + 2; }
    if first == 0xFFFF {
      if start + 4 > |raw| { return [], start + 2; }
      return OrdinalText(Read16(raw, start + 2)), start + 4;
    }
    text, pos := ReadUtf16(raw, start + 2);
    text := [first] + text;
  }

  method ParseItem(raw: Bytes, pos: nat) returns (r: Option<(Control, nat)>)
    ensures r == ParseControl(raw, pos)
  {
    if pos + 18 > |raw| { return None; }
    var cls, pos1 := ReadVarField(raw, pos + 18);
    var title, pos2 := ReadVarField(raw, pos1);
    if pos2 + 2 > |raw| { return None; }
    var next := Align4(pos2 + 2 + Read16(raw, pos2));
    var control := Control(Read16(raw, pos + 16), ResolveClass(cls), title,
      Signed16(raw, pos + 8), Signed16(raw, pos + 10), Signed16(raw, pos + 12), Signed16(raw, pos + 14),
      Read32(raw, pos), Read32(raw, pos + 4));
    r := Some((control, next));
  }

  function AfterControls(done: seq<Control>, rest: Option<seq<Control>>): Option<seq<Control>> {
    match rest case None => None case Some(more) => Some(done + more)
  }

  lemma NothingBefore(rest: Option<seq<Control>>)
    ensures AfterControls([], rest) == rest
  {
    if rest.Some? { assert [] + rest.value == rest.value; }
  }

  lemma OneMore(done: seq<Control>, control: Control, rest: seq<Control>)
    ensures done + ([control] + rest) == done + [control] + rest
  {
  }

  method ParseItems(raw: Bytes, start: nat, count: nat) returns (r: Option<seq<Control>>)
    ensures r == ParseControls(raw, start, count)
  {
    hide ParseControl;
    var controls: seq<Control>, pos: nat := [], start;
    NothingBefore(ParseControls(raw, start, count));
    for i := 0 to count
      invariant ParseControls(raw, start, count) == AfterControls(controls, ParseControls(raw, pos, count - i))
    {
      var item := ParseItem(raw, pos);
      if item.None? { return None; }
      ghost var rest := ParseControls(raw, item.value.1, count - i - 1);
      if rest.Some? { OneMore(controls, item.value.0, rest.value); }
      controls, pos := controls + [item.value.0], item.value.1;
    }
    assert controls + [] == controls;
    r := Some(controls);
  }

  method ParseTemplate(raw: Bytes) returns (r: Option<Dialog>)
    ensures r == ParseDialog(raw)
  {
    hide ReadText, ReadField, ParseControls, Signed16, Read16, Read32, HasFont;
    if |raw| < 18 { return None; }
    var style := Read32(raw, 0);
    var menu, pos1 := ReadVarField(raw, 18);
    var wndClass, pos2 := ReadVarField(raw, pos1);
    var title, pos := ReadVarField(raw, pos2);
    var fontName: Text, fontPoint: Unit := [], 0;
    if HasFont(style) {
      if pos + 2 > |raw| { return None; }
      fontPoint := Read16(raw, pos);
      fontName, pos := ReadUtf16(raw, pos + 2);
    }
    var controls := ParseItems(raw, Align4(pos), Read16(raw, 8));
    if controls.None? { return None; }
    r := Some(Dialog(title, Signed16(raw, 10), Signed16(raw, 12), Signed16(raw, 14), Signed16(raw, 16),
                     style, fontName, fontPoint, controls.value));
  }
}
