/** Printing integers with _sprintf_format and reading them back with _sscanf. */
module PrintScan {
  import opened Lists
  import opened LittleEndian
  import opened Numerals
  import P = Printf
  import S = Scanf

  /** A conversion with literal flags, width and precision, as texts. */
  datatype Field = Field(flags: string, width: string, dot: bool, prec: string, modifier: string, letter: char)

  predicate AllDecimal(s: string) {
    forall k :: 0 <= k < |s| ==> '0' <= s[k] <= '9'
  }

  predicate IsModifier(s: string) {
    s == "" || s == "l" || s == "h" || s == "L" || s == "ll" || s == "hl" || s == "Ll" || s == "I64"
  }

  predicate AllFlags(s: string) {
    forall k :: 0 <= k < |s| ==> s[k] == '-' || s[k] == '0' || s[k] == '+' || s[k] == ' ' || s[k] == '#'
  }

  /** A letter the printer does not take for a flag, a digit, a modifier or a star. */
  predicate IsLetter(c: char) {
    && c != '-' && c != '+' && c != ' ' && c != '#' && !('0' <= c <= '9')
    && c != '.' && c != '*' && c != '%' && c != 'l' && c != 'h' && c != 'L' && c != 'I'
  }

  /** A width starting with 0 would read as a flag. */
  predicate Readable(f: Field) {
    && AllFlags(f.flags) && AllDecimal(f.width) && (f.width != "" ==> f.width[0] != '0')
    && AllDecimal(f.prec) && (!f.dot ==> f.prec == "") && IsModifier(f.modifier) && IsLetter(f.letter)
  }

  /** A field whose number can be scanned again. */
  predicate WellFormed(f: Field) {
    && Readable(f)
    && (f.letter == 'd' || f.letter == 'i' || f.letter == 'u' || f.letter == 'x' || f.letter == 'X')
  }

  function Tail(f: Field): string {
    f.modifier + [f.letter]
  }

  function PrecisionText(f: Field): string {
    if f.dot then "." + f.prec else ""
  }

  function FieldText(f: Field): string {
    "%" + (f.flags + (f.width + (PrecisionText(f) + Tail(f))))
  }

  /** The printing format: the fields with a separator between. */
  function PrintFormat(fields: seq<Field>, sep: string): string {
    if fields == [] then "" else if |fields| == 1 then FieldText(fields[0])
    else FieldText(fields[0]) + (sep + PrintFormat(fields[1..], sep))
  }

  /** The letter that reads what a letter prints. */
  function ScanLetter(letter: char): char {
    if letter == 'u' then 'u' else if letter == 'x' || letter == 'X' then 'x' else 'd'
  }

  function ScanFormat(fields: seq<Field>, glue: string): string {
    if fields == [] then "" else if |fields| == 1 then ['%', ScanLetter(fields[0].letter)]
    else ['%', ScanLetter(fields[0].letter)] + (glue + ScanFormat(fields[1..], glue))
  }

  /** A character that cannot continue a number. */
  predicate Ends(c: char) {
    && !('0' <= c <= '9') && !('a' <= c <= 'f') && !('A' <= c <= 'F') && c != 'x' && c != 'X'
    && c as int != 0xb2 && c as int != 0xb3 && c as int != 0xb9
  }

  predicate NoPercent(s: string) {
    forall k :: 0 <= k < |s| ==> s[k] != '%'
  }

  predicate Separates(sep: string) {
    sep != "" && Ends(sep[0]) && NoPercent(sep)
  }

  /** The scanner's separator: the printer's, or with a blank before it, which is
      needed where numbers are filled with spaces on the right. */
  predicate Glues(glue: string, sep: string, fields: seq<Field>) {
    || glue == " " + sep
    || (glue == sep && ((sep != "" && sep[0] == ' ') || forall k :: 0 <= k < |fields| ==> '-' !in fields[k].flags))
  }

  // ---- The printer reads a field's text as that field ----

  /** The flags a text sets, as its characters say. */
  function FlagsOf(text: string): P.Flags {
    P.Flags('-' in text, '0' in text, '+' in text, ' ' in text)
  }

  function BothFlags(f: P.Flags, g: P.Flags): P.Flags {
    P.Flags(f.left || g.left, f.zero || g.zero, f.plus || g.plus, f.space || g.space)
  }

  lemma {:induction false} FlagsTaken(flags: string, t: string, f: P.Flags)
    requires AllFlags(flags) && t != "" && !P.IsFlag(t[0])
    ensures P.TakeFlags(flags + t, f) == (BothFlags(f, FlagsOf(flags)), t)
    decreases |flags|
  {
    if flags == "" {
      assert flags + t == t;
    } else {
      assert (flags + t)[1..] == flags[1..] + t;
      FlagsTaken(flags[1..], t, P.AddFlag(f, flags[0]));
      OneFlag(f, flags[0], flags[1..]);
      assert flags == [flags[0]] + flags[1..];
    }
  }

  lemma OneFlag(f: P.Flags, c: char, rest: string)
    requires P.IsFlag(c)
    ensures BothFlags(P.AddFlag(f, c), FlagsOf(rest)) == BothFlags(f, FlagsOf([c] + rest))
  {
  }

  lemma {:induction false} NumberTaken(done: string, digits: string, t: string)
    requires AllDecimal(digits) && t != "" && !P.IsDecimal(t[0])
    ensures P.TakeNumber(digits + t, Value(done, 10)) == (Value(done + digits, 10), t)
    decreases |digits|
  {
    if digits == "" {
      assert digits + t == t && done + digits == done;
    } else {
      assert (digits + t)[1..] == digits[1..] + t;
      LastDigit(done, digits[0], 10);
      NumberTaken(done + [digits[0]], digits[1..], t);
      assert done + [digits[0]] + digits[1..] == done + digits;
    }
  }

  lemma SpecRead(f: Field, rest: string, flags: P.Flags, width: nat, prec: int, k: nat)
    requires Readable(f)
    ensures P.ParseSpec(flags, width, prec, Tail(f) + rest, k) == P.Directive(flags, width, prec, f.letter, rest, k)
  {
    var s := Tail(f) + rest;
    assert s[|f.modifier|..] == [f.letter] + rest;
    assert P.TakeModifier(s) == [f.letter] + rest;
  }

  lemma TailStart(f: Field, rest: string)
    requires Readable(f)
    ensures var s := Tail(f) + rest; s != "" && !P.IsDecimal(s[0]) && !P.IsFlag(s[0]) && s[0] != '.' && s[0] != '*'
  {
    var s := Tail(f) + rest;
    assert s[0] == if f.modifier == "" then f.letter else f.modifier[0];
  }

  /** The precision a field asks for; -1 is none. */
  function PrecisionOf(f: Field): int {
    if f.dot then Value(f.prec, 10) else -1
  }

  /** The field's conversion, with the flags, the width and the precision its texts say. */
  predicate ReadsAs(d: P.Directive, f: Field, rest: string, k: nat) {
    d == P.Directive(FlagsOf(f.flags), Value(f.width, 10), PrecisionOf(f), f.letter, rest, k)
  }

  lemma DotRead(digits: string, t: string, flags: P.Flags, width: nat, args: P.Args, k: nat)
    requires AllDecimal(digits) && t != "" && !P.IsDecimal(t[0]) && t[0] != '*'
    ensures P.ParsePrecision(flags, width, "." + digits + t, args, k)
      == P.ParseSpec(flags, width, Value(digits, 10), t, k)
  {
    hide P.ParseSpec, P.TakeNumber;
    var s := "." + digits + t;
    assert s[1..] == digits + t;
    assert s[1] == if digits != "" then digits[0] else t[0];
    NumberTaken("", digits, t);
    assert "" + digits == digits;
  }

  lemma NoDotRead(t: string, flags: P.Flags, width: nat, args: P.Args, k: nat)
    requires t != "" && t[0] != '.'
    ensures P.ParsePrecision(flags, width, t, args, k) == P.ParseSpec(flags, width, -1, t, k)
  {
  }

  lemma PrecisionRead(f: Field, rest: string, flags: P.Flags, width: nat, args: P.Args, k: nat)
    requires Readable(f)
    ensures P.ParsePrecision(flags, width, PrecisionText(f) + (Tail(f) + rest), args, k)
      == P.Directive(flags, width, PrecisionOf(f), f.letter, rest, k)
  {
    var t := Tail(f) + rest;
    TailStart(f, rest);
    SpecRead(f, rest, flags, width, PrecisionOf(f), k);
    hide P.ParsePrecision, P.ParseSpec, Tail, IsLetter, IsModifier, AllFlags;
    if f.dot {
      DotRead(f.prec, t, flags, width, args, k);
    } else {
      assert PrecisionText(f) + t == t;
      NoDotRead(t, flags, width, args, k);
    }
  }

  /** A field and what follows it, after the percent sign. */
  function AfterPercent(f: Field, rest: string): string {
    f.flags + (f.width + (PrecisionText(f) + (Tail(f) + rest)))
  }

  lemma DirectiveRead(f: Field, rest: string, args: P.Args, k: nat)
    requires Readable(f)
    ensures ReadsAs(P.ParseDirective(AfterPercent(f, rest), args, k), f, rest, k)
  {
    var t := PrecisionText(f) + (Tail(f) + rest);
    TailStart(f, rest);
    assert t != "" && !P.IsDecimal(t[0]) && !P.IsFlag(t[0]) && t[0] != '*' by {
      if f.dot { assert t[0] == '.'; } else { assert t == Tail(f) + rest; }
    }
    var u := f.width + t;
    assert u != "" && !P.IsFlag(u[0]) && u[0] != '*' by {
      assert u[0] == if f.width != "" then f.width[0] else t[0];
    }
    FlagsTaken(f.flags, u, P.NO_FLAGS);
    NumberTaken("", f.width, t);
    assert "" + f.width == f.width;
    PrecisionRead(f, rest, FlagsOf(f.flags), Value(f.width, 10), args, k);
  }

  /** Formatting one field: its directive d, its text, then the rest. */
  lemma FormatField(f: Field, rest: string, args: P.Args, k: nat) returns (d: P.Directive)
    requires Readable(f) && P.TakesArgument(f.letter)
    ensures ReadsAs(d, f, rest, k)
    ensures P.Format(FieldText(f) + rest, args, k)
      == P.Prepend(P.Pad(P.Convert(d, args(k)), d), P.Format(rest, args, k + 1))
  {
    Regroup(f, rest);
    DirectiveRead(f, rest, args, k);
    FirstNotPercent(f, rest);
    d := FormatStep(FieldText(f) + rest, AfterPercent(f, rest), f, rest, args, k);
  }

  lemma FormatStep(fmt: string, s: string, f: Field, rest: string, args: P.Args, k: nat) returns (d: P.Directive)
    requires fmt == "%" + s && s != "" && s[0] != '%' && P.TakesArgument(f.letter)
    requires ReadsAs(P.ParseDirective(s, args, k), f, rest, k)
    ensures ReadsAs(d, f, rest, k)
    ensures P.Format(fmt, args, k) == P.Prepend(P.Pad(P.Convert(d, args(k)), d), P.Format(rest, args, k + 1))
  {
    hide P.ParseDirective, P.Pad, P.Convert;
    assert fmt[1] == s[0] && fmt[1..] == s;
    d := P.ParseDirective(s, args, k);
  }

  lemma Regroup(f: Field, rest: string)
    ensures FieldText(f) + rest == "%" + AfterPercent(f, rest)
  {
    var a := PrecisionText(f) + Tail(f);
    assert a + rest == PrecisionText(f) + (Tail(f) + rest);
    assert (f.width + a) + rest == f.width + (a + rest);
    assert (f.flags + (f.width + a)) + rest == f.flags + ((f.width + a) + rest);
  }

  lemma FirstNotPercent(f: Field, rest: string)
    requires Readable(f)
    ensures AfterPercent(f, rest) != "" && AfterPercent(f, rest)[0] != '%'
  {
    var t := Tail(f) + rest;
    var u := PrecisionText(f) + t;
    var s := f.flags + (f.width + u);
    TailStart(f, rest);
    assert t[0] == if f.modifier == "" then f.letter else f.modifier[0];
    assert u[0] == if f.dot then '.' else t[0];
    assert (f.width + u)[0] == if f.width != "" then f.width[0] else u[0];
    assert s[0] == if f.flags != "" then f.flags[0] else (f.width + u)[0];
  }

  // ---- What is printed ----

  function Base(letter: char): nat {
    if letter == 'x' || letter == 'X' then 16 else 10
  }

  predicate IsSigned(letter: char) {
    letter == 'd' || letter == 'i'
  }

  /** A sign or space, and digits, worth raw. */
  predicate Shows(letter: char, lead: string, digits: string, raw: Word32) {
    && digits != "" && AllDigits(digits, Base(letter))
    && if IsSigned(letter) then
         (lead == "" || lead == "+" || lead == "-" || lead == " ") && ToWord(SignedValue(lead == "-", digits)) == raw
       else lead == "" && Value(digits, Base(letter)) == raw
  }

  lemma Zeros(n: nat, digits: string, b: nat)
    requires AllDigits(digits, b) && b > 0
    ensures AllDigits(Repeat('0', n) + digits, b) && Value(Repeat('0', n) + digits, b) == Value(digits, b)
  {
    ValueZeros(n, digits, b);
    var t := Repeat('0', n) + digits;
    forall k | 0 <= k < |t| ensures DigitValue(t[k]) < b {
      assert t[k] == if k < n then '0' else digits[k - n];
    }
  }

  lemma ZerosShow(n: nat, letter: char, lead: string, digits: string, raw: Word32)
    requires Shows(letter, lead, digits, raw)
    ensures Shows(letter, lead, Repeat('0', n) + digits, raw)
  {
    Zeros(n, digits, Base(letter));
  }

  lemma FillShows(prec: int, letter: char, lead: string, digits: string, raw: Word32)
    requires Shows(letter, lead, digits, raw)
    ensures Shows(letter, lead, P.ZeroFill(digits, prec), raw)
  {
    if prec >= 0 && |digits| < prec { ZerosShow(prec - |digits|, letter, lead, digits, raw); }
  }

  lemma UpperDigits(s: string)
    requires AllDigits(s, 16)
    ensures AllDigits(Upper(s), 16)
  {
    forall k | 0 <= k < |s| ensures DigitValue(Upper(s)[k]) < 16 {
      assert DigitValue(s[k]) < 16;
    }
  }

  /** The digits of a number, filled to the precision. */
  lemma FilledDigits(letter: char, lead: string, plain: string, raw: Word32, prec: int)
    requires Shows(letter, lead, plain, raw)
    ensures Shows(letter, lead, P.ZeroFill(plain, prec), raw)
    ensures lead == "" ==> lead + P.ZeroFill(plain, prec) == P.ZeroFill(plain, prec)
  {
    FillShows(prec, letter, lead, plain, raw);
  }

  lemma SignedShows(letter: char, raw: Word32, flags: P.Flags, prec: int) returns (lead: string, digits: string)
    requires IsSigned(letter)
    ensures P.SignedText(raw, flags, prec) == lead + digits && Shows(letter, lead, digits, raw)
  {
    hide P.ZeroFill, ToBase;
    var n := if raw >= 0x8000_0000 then 0x1_0000_0000 - raw else raw;
    ToBaseDigits(n, 10);
    ValueToBase(n, 10);
    lead := if raw >= 0x8000_0000 then "-" else if flags.plus then "+" else if flags.space then " " else "";
    digits := P.ZeroFill(ToBase(n, 10), prec);
    SignedWordIs(raw, ToBase(n, 10));
    FilledDigits(letter, lead, ToBase(n, 10), raw, prec);
  }

  lemma SignedWordIs(raw: Word32, digits: string)
    ensures raw >= 0x8000_0000 && Value(digits, 10) == 0x1_0000_0000 - raw ==> ToWord(SignedValue(true, digits)) == raw
    ensures Value(digits, 10) == raw ==> ToWord(SignedValue(false, digits)) == raw
  {
  }

  lemma UnsignedShows(letter: char, raw: Word32, prec: int) returns (digits: string)
    requires letter == 'u' || letter == 'x' || letter == 'X'
    ensures digits == P.ZeroFill(if letter == 'X' then Upper(ToBase(raw, 16)) else ToBase(raw, Base(letter)), prec)
    ensures Shows(letter, "", digits, raw)
  {
    hide P.ZeroFill, ToBase;
    var b := Base(letter);
    var plain := ToBase(raw, b);
    ToBaseDigits(raw, b);
    ValueToBase(raw, b);
    if letter == 'X' {
      UpperDigits(plain);
      ValueUpper(plain, 16);
      plain := Upper(plain);
    }
    digits := P.ZeroFill(plain, prec);
    FilledDigits(letter, "", plain, raw, prec);
  }

  lemma ConvertShows(d: P.Directive, raw: Word32) returns (lead: string, digits: string)
    requires d.spec == 'd' || d.spec == 'i' || d.spec == 'u' || d.spec == 'x' || d.spec == 'X'
    ensures P.Convert(d, raw) == lead + digits && Shows(d.spec, lead, digits, raw)
  {
    hide P.ZeroFill, ToBase, P.SignedText, Shows;
    if IsSigned(d.spec) {
      lead, digits := SignedShows(d.spec, raw, d.flags, d.prec);
    } else {
      digits := UnsignedShows(d.spec, raw, d.prec);
      lead := "";
      assert lead + digits == digits;
    }
  }

  lemma LeadIs(letter: char, lead: string, digits: string, raw: Word32)
    requires Shows(letter, lead, digits, raw)
    ensures digits != "" && AllDigits(digits, 16) && |lead| <= 1
    ensures lead != "" ==> lead[0] == '-' || lead[0] == '+' || lead[0] == ' '
  {
    forall k | 0 <= k < |digits| ensures DigitValue(digits[k]) < 16 {
      assert DigitValue(digits[k]) < Base(letter);
    }
  }

  /** Padding puts spaces around, or zeros after the sign. */
  lemma PadShows(d: P.Directive, raw: Word32, lead: string, digits: string)
    returns (before: nat, filled: string, after: nat)
    requires Shows(d.spec, lead, digits, raw) && d.spec != 's' && d.spec != 'c'
    ensures P.Pad(lead + digits, d) == Repeat(' ', before) + (lead + filled) + Repeat(' ', after)
    ensures Shows(d.spec, lead, filled, raw) && (after > 0 ==> d.flags.left)
  {
    LeadIs(d.spec, lead, digits, raw);
    hide Shows;
    var val := lead + digits;
    before, filled, after := 0, digits, 0;
    if |val| < d.width {
      var n := d.width - |val|;
      if d.flags.left {
        after := n;
      } else if d.flags.zero {
        filled := Repeat('0', n) + digits;
        ZerosShow(n, d.spec, lead, digits, raw);
        ZeroPadded(lead, digits, n);
      } else {
        before := n;
      }
    }
    NoSpaces(lead + filled, before, after);
  }

  lemma NoSpaces(s: string, before: nat, after: nat)
    ensures before == 0 ==> Repeat(' ', before) + s + Repeat(' ', after) == s + Repeat(' ', after)
    ensures after == 0 ==> Repeat(' ', before) + s + Repeat(' ', after) == Repeat(' ', before) + s
    ensures before == 0 && after == 0 ==> Repeat(' ', before) + s + Repeat(' ', after) == s
  {
  }

  lemma ZeroPadded(lead: string, digits: string, n: nat)
    requires digits != "" && AllDigits(digits, 16) && |lead| <= 1
    requires lead != "" ==> lead[0] == '-' || lead[0] == '+' || lead[0] == ' '
    ensures var val := lead + digits;
      if val[0] == '-' || val[0] == '+' || val[0] == ' ' then
        [val[0]] + Repeat('0', n) + val[1..] == lead + (Repeat('0', n) + digits)
      else Repeat('0', n) + val == lead + (Repeat('0', n) + digits)
  {
    var val := lead + digits;
    if lead == "" {
      assert val == digits && DigitValue(digits[0]) < 16;
    } else {
      assert val[1..] == digits && [val[0]] == lead;
    }
  }

  // ---- What is read ----

  predicate EndsField(t: string) {
    t == "" || Ends(t[0])
  }

  lemma {:induction false} SkipSpaces(n: nat, s: string)
    ensures S.Skip(Repeat(' ', n) + s) == S.Skip(s)
    decreases n
  {
    if n == 0 {
      assert Repeat(' ', n) + s == s;
    } else {
      assert (Repeat(' ', n) + s)[1..] == Repeat(' ', n - 1) + s;
      SkipSpaces(n - 1, s);
    }
  }

  lemma {:induction false} RunIs(digits: string, t: string, hex: bool, used: nat)
    requires AllDigits(digits, if hex then 16 else 10) && EndsField(t)
    ensures S.Run(digits + t, hex, used, 0) == |digits|
    decreases |digits|
  {
    if digits == "" {
      assert digits + t == t;
    } else {
      assert DigitValue(digits[0]) < if hex then 16 else 10;
      assert (digits + t)[1..] == digits[1..] + t;
      RunIs(digits[1..], t, hex, used + 1);
    }
  }

  lemma ReadDigitsIs(negative: bool, digits: string, t: string, used: nat)
    requires digits != "" && AllDigits(digits, 10) && EndsField(t)
    ensures S.ReadDigits(negative, digits + t, used, 0) == S.Value(ToWord(SignedValue(negative, digits)), t)
  {
    RunIs(digits, t, false, used);
    AsciiToken(digits);
    assert (digits + t)[..|digits|] == digits && (digits + t)[|digits|..] == t;
  }

  lemma ReadHexIs(digits: string, t: string)
    requires digits != "" && AllDigits(digits, 16) && EndsField(t)
    ensures S.ReadHex(digits + t, 0) == S.Value(ToWord(Value(digits, 16)), t)
  {
    var s := digits + t;
    RunIs(digits, t, true, 0);
    assert DigitValue(digits[0]) < 16;
    if |s| > 1 {
      assert s[1] == if |digits| > 1 then digits[1] else t[0];
      assert |digits| > 1 ==> DigitValue(digits[1]) < 16;
    }
    assert !S.HasHexPrefix(s) && s[0..] == s;
    assert s[..|digits|] == digits && s[|digits|..] == t;
  }

  lemma ReadSignedIs(lead: string, digits: string, t: string)
    requires digits != "" && AllDigits(digits, 10) && EndsField(t) && (lead == "" || lead == "+" || lead == "-")
    ensures S.ReadSigned(lead + digits + t, 0) == S.Value(ToWord(SignedValue(lead == "-", digits)), t)
  {
    var s := lead + digits + t;
    if lead == "" {
      assert s == digits + t;
      assert DigitValue(digits[0]) < 10;
      ReadDigitsIs(false, digits, t, 0);
    } else {
      assert s[0] == lead[0] && s[1..] == digits + t;
      ReadDigitsIs(lead == "-", digits, t, 1);
    }
  }

  lemma WordIs(raw: Word32)
    ensures ToWord(raw) == raw
  {
  }

  /** A printed number reads as its value, up to where it ends. */
  lemma NumberIs(letter: char, lead: string, digits: string, raw: Word32, t: string)
    requires Shows(letter, lead, digits, raw) && lead != " " && EndsField(t)
    ensures S.ReadNumber(ScanLetter(letter), lead + digits + t, 0) == S.Value(raw, t)
  {
    WordIs(raw);
    if Base(letter) == 16 {
      ReadHexIs(digits, t);
      assert lead + digits == digits;
    } else if letter == 'u' {
      ReadDigitsIs(false, digits, t, 0);
      assert SignedValue(false, digits) == raw;
      assert lead + digits == digits;
    } else if IsSigned(letter) {
      ReadSignedIs(lead, digits, t);
    } else {
      ReadSignedIs(lead, digits, t);
      assert SignedValue(false, digits) == raw;
    }
  }

  lemma SkipStops(s: string)
    requires s != "" && !S.IsBlank(s[0])
    ensures S.Skip(s) == s
  {
  }

  /** A padded number, likewise. */
  lemma FieldIs(letter: char, before: nat, lead: string, digits: string, after: nat, raw: Word32, t: string)
    requires Shows(letter, lead, digits, raw) && EndsField(t)
    ensures S.ReadField(Repeat(' ', before) + (lead + digits) + Repeat(' ', after) + t, ScanLetter(letter), 0)
      == S.Value(raw, Repeat(' ', after) + t)
  {
    var end := Repeat(' ', after) + t;
    var number := lead + digits + end;
    assert Repeat(' ', before) + (lead + digits) + Repeat(' ', after) + t == Repeat(' ', before) + number;
    SkipSpaces(before, number);
    assert EndsField(end);
    assert DigitValue(digits[0]) < 16;
    if lead == " " {
      SkipSpaces(1, digits + end);
      assert number == Repeat(' ', 1) + (digits + end);
      SkipStops(digits + end);
      assert digits + end == "" + digits + end;
      assert Shows(letter, "", digits, raw);
      NumberIs(letter, "", digits, raw, end);
    } else {
      assert number[0] == if lead != "" then lead[0] else digits[0];
      SkipStops(number);
      NumberIs(letter, lead, digits, raw, end);
    }
  }

  // ---- Round trip ----

  /** Stores of the arguments from first on, in order. */
  function StoresFrom(args: P.Args, first: nat, count: nat): seq<S.Store> {
    seq(count, k requires 0 <= k < count => S.Store(first + k, args(first + k)))
  }

  lemma ScanSpec(letter: char, rest: string)
    ensures var fmt := ['%', ScanLetter(letter)] + rest;
      S.ParseSpec(fmt[1..]) == S.Spec(ScanLetter(letter), 0, rest)
  {
    var fmt := ['%', ScanLetter(letter)] + rest;
    var s := fmt[1..];
    assert s == [ScanLetter(letter)] + rest;
    assert DigitCount(s) == 0 && s[0..] == s && s[..0] == "" && s[1..] == rest;
  }

  /** One field of the scanning loop. */
  lemma ScanStep(letter: char, src: string, rest: string, raw: Word32, left: string, pointer: nat, stores: seq<S.Store>)
    requires S.ReadField(src, ScanLetter(letter), 0) == S.Value(raw, left)
    ensures S.Scan(src, ['%', ScanLetter(letter)] + rest, pointer, stores)
      == S.Scan(left, rest, pointer + 1, stores + [S.Store(pointer, raw)])
  {
    ScanSpec(letter, rest);
  }

  /** text reads as raw, up to its trailing spaces. */
  ghost predicate Reads(letter: char, text: string, raw: Word32, after: nat) {
    forall t :: EndsField(t) ==> S.ReadField(text + t, ScanLetter(letter), 0) == S.Value(raw, Repeat(' ', after) + t)
  }

  lemma LetterIs(f: Field)
    requires WellFormed(f)
    ensures f.letter == 'd' || f.letter == 'i' || f.letter == 'u' || f.letter == 'x' || f.letter == 'X'
    ensures Readable(f)
  {
  }

  /** What a field prints reads back. */
  lemma FirstField(f: Field, rest: string, args: P.Args, k: nat) returns (text: string, after: nat)
    requires WellFormed(f)
    ensures P.Format(FieldText(f) + rest, args, k) == P.Prepend(text, P.Format(rest, args, k + 1))
    ensures Reads(f.letter, text, args(k), after) && (after > 0 ==> '-' in f.flags)
  {
    hide P.Format, P.Pad, P.Convert, FieldText, S.ReadField, Shows, WellFormed, Readable;
    LetterIs(f);
    var d := FormatField(f, rest, args, k);
    var lead, digits := ConvertShows(d, args(k));
    var before, filled, end := PadShows(d, args(k), lead, digits);
    text, after := P.Pad(lead + digits, d), end;
    forall t | EndsField(t)
      ensures S.ReadField(text + t, ScanLetter(f.letter), 0) == S.Value(args(k), Repeat(' ', after) + t)
    {
      FieldIs(f.letter, before, lead, filled, after, args(k), t);
    }
  }

  /** The printer copies what is no percent sign. */
  lemma {:induction false} PrintLiteral(sep: string, rest: string, args: P.Args, k: nat)
    requires NoPercent(sep)
    ensures P.Format(sep + rest, args, k) == P.Prepend(sep, P.Format(rest, args, k))
    decreases |sep|
  {
    if sep == "" {
      assert sep + rest == rest;
      P.PrependNothing(P.Format(rest, args, k));
    } else {
      assert (sep + rest)[1..] == sep[1..] + rest;
      PrintLiteral(sep[1..], rest, args, k);
      P.PrependTwice([sep[0]], sep[1..], P.Format(rest, args, k));
      assert sep == [sep[0]] + sep[1..];
    }
  }

  /** A blank in the format skips all blanks. */
  lemma ScanBlank(src: string, rest: string, pointer: nat, stores: seq<S.Store>)
    ensures S.Scan(src, " " + rest, pointer, stores) == S.Scan(S.Skip(src), rest, pointer, stores)
  {
    assert (" " + rest)[1..] == rest;
  }

  /** Any other character takes itself, if it is there, and nothing else. */
  lemma ScanLiteral(c: char, src: string, rest: string, pointer: nat, stores: seq<S.Store>)
    requires c != '%' && c != ' '
    ensures S.Scan([c] + src, [c] + rest, pointer, stores) == S.Scan(src, rest, pointer, stores)
    ensures src == "" || src[0] != c ==> S.Scan(src, [c] + rest, pointer, stores) == S.Scan(src, rest, pointer, stores)
  {
    assert ([c] + rest)[1..] == rest && ([c] + src)[1..] == src;
  }

  /** A separator takes itself, and perhaps the blanks after it. */
  lemma {:induction false} ScanSeparator(sep: string, x: string, src: string, fmt: string, pointer: nat,
                                         stores: seq<S.Store>) returns (left: string)
    requires NoPercent(sep) && (x == sep + src || x == S.Skip(sep + src))
    ensures left == src || left == S.Skip(src)
    ensures S.Scan(x, sep + fmt, pointer, stores) == S.Scan(left, fmt, pointer, stores)
    decreases |sep|
  {
    if sep == "" {
      assert sep + src == src && sep + fmt == fmt;
      return x;
    }
    var t, rest := sep[1..] + src, sep[1..] + fmt;
    assert sep + fmt == [sep[0]] + rest && sep + src == [sep[0]] + t;
    assert (sep + src)[1..] == t;
    SkipTwice(t);
    hide S.Scan;
    var y;
    if sep[0] == ' ' {
      ScanBlank(x, rest, pointer, stores);
      SkipTwice(sep + src);
      y := S.Skip(t);
    } else if x == sep + src {
      ScanLiteral(sep[0], t, rest, pointer, stores);
      y := t;
    } else {
      ScanLiteral(sep[0], x, rest, pointer, stores);
      y := x;
    }
    left := ScanSeparator(sep[1..], y, src, fmt, pointer, stores);
  }

  /** The same after the spaces that fill a number. */
  lemma ScanGlue(glue: string, sep: string, after: nat, src: string, fmt: string, pointer: nat,
                 stores: seq<S.Store>) returns (left: string)
    requires sep != "" && NoPercent(sep)
    requires glue == " " + sep || (glue == sep && (sep[0] == ' ' || after == 0))
    ensures left == src || left == S.Skip(src)
    ensures S.Scan(Repeat(' ', after) + (sep + src), glue + fmt, pointer, stores) == S.Scan(left, fmt, pointer, stores)
  {
    var x := Repeat(' ', after) + (sep + src);
    SkipSpaces(after, sep + src);
    hide S.Scan;
    if glue == " " + sep {
      assert glue + fmt == " " + (sep + fmt);
      ScanBlank(x, sep + fmt, pointer, stores);
      left := ScanSeparator(sep, S.Skip(sep + src), src, fmt, pointer, stores);
    } else if after == 0 {
      assert x == sep + src;
      left := ScanSeparator(sep, x, src, fmt, pointer, stores);
    } else {
      var rest := sep[1..];
      assert glue + fmt == " " + (rest + fmt) && (sep + src)[1..] == rest + src;
      ScanBlank(x, rest + fmt, pointer, stores);
      left := ScanSeparator(rest, S.Skip(rest + src), src, fmt, pointer, stores);
    }
  }

  lemma SkipTwice(s: string)
    ensures S.Skip(S.Skip(s)) == S.Skip(s)
  {
  }

  /** Blanks before a field do not matter. */
  lemma ScanIgnoresBlanks(letter: char, src: string, rest: string, pointer: nat, stores: seq<S.Store>)
    ensures S.Scan(S.Skip(src), ['%', ScanLetter(letter)] + rest, pointer, stores)
      == S.Scan(src, ['%', ScanLetter(letter)] + rest, pointer, stores)
  {
    ScanSpec(letter, rest);
    SkipTwice(src);
  }

  predicate AllWellFormed(fields: seq<Field>) {
    forall k :: 0 <= k < |fields| ==> WellFormed(fields[k])
  }

  lemma ScanFormatStarts(fields: seq<Field>, glue: string) returns (tail: string)
    requires fields != []
    ensures ScanFormat(fields, glue) == ['%', ScanLetter(fields[0].letter)] + tail
  {
    tail := if |fields| == 1 then "" else glue + ScanFormat(fields[1..], glue);
    assert |fields| == 1 ==> ['%', ScanLetter(fields[0].letter)] + "" == ['%', ScanLetter(fields[0].letter)];
  }

  /** What printFmt prints from the k-th of count arguments scans back. */
  ghost predicate RoundTrips(printFmt: string, scanFmt: string, args: P.Args, k: nat, count: nat,
                             stores: seq<S.Store>) {
    && P.Format(printFmt, args, k).Text?
    && S.Scan(P.Format(printFmt, args, k).text, scanFmt, k, stores) == S.Scanned(stores + StoresFrom(args, k, count))
  }

  lemma StoresMore(args: P.Args, k: nat, count: nat, stores: seq<S.Store>)
    ensures stores + [S.Store(k, args(k))] + StoresFrom(args, k + 1, count) == stores + StoresFrom(args, k, count + 1)
  {
  }

  /** The last field. */
  lemma ScanLast(f: Field, args: P.Args, k: nat, stores: seq<S.Store>)
    requires WellFormed(f)
    ensures RoundTrips(FieldText(f), ['%', ScanLetter(f.letter)], args, k, 1, stores)
  {
    hide P.Format, S.Scan, S.ReadField, FieldText, WellFormed, ScanLetter, Reads;
    var text, after := FirstField(f, "", args, k);
    NothingPrints(args, k + 1);
    assert FieldText(f) + "" == FieldText(f) && text + "" == text;
    ScanEnd(f.letter, text, after, args(k), k, stores);
    assert StoresFrom(args, k, 1) == [S.Store(k, args(k))];
  }

  lemma NothingPrints(args: P.Args, k: nat)
    ensures P.Format("", args, k) == P.Text("")
  {
  }

  lemma ScanEnd(letter: char, text: string, after: nat, raw: Word32, k: nat, stores: seq<S.Store>)
    requires Reads(letter, text, raw, after)
    ensures S.Scan(text, ['%', ScanLetter(letter)], k, stores) == S.Scanned(stores + [S.Store(k, raw)])
  {
    hide S.ReadField, ScanLetter;
    assert text + "" == text && ['%', ScanLetter(letter)] + "" == ['%', ScanLetter(letter)];
    assert EndsField("");
    ScanStep(letter, text + "", "", raw, Repeat(' ', after) + "", k, stores);
  }

  /** A field with others after it. */
  lemma ScanMore(f: Field, sep: string, glue: string, printFmt: string, letter: char, tail: string, args: P.Args,
                 k: nat, count: nat, stores: seq<S.Store>)
    requires WellFormed(f) && Separates(sep) && Glues(glue, sep, [f])
    requires RoundTrips(printFmt, ['%', ScanLetter(letter)] + tail, args, k + 1, count, stores + [S.Store(k, args(k))])
    ensures RoundTrips(FieldText(f) + (sep + printFmt),
      ['%', ScanLetter(f.letter)] + (glue + (['%', ScanLetter(letter)] + tail)),
      args, k, count + 1, stores)
  {
    var text, after := FirstField(f, sep + printFmt, args, k);
    assert [f][0] == f;
    hide P.Format, S.Scan, S.ReadField, FieldText, WellFormed, Reads, ScanLetter;
    PrintLiteral(sep, printFmt, args, k + 1);
    var rest := P.Format(printFmt, args, k + 1).text;
    ScanOver(f.letter, text, after, args(k), sep, glue, rest, letter, tail, k, stores);
    StoresMore(args, k, count, stores);
  }

  /** Scanning one field and the separator. */
  lemma ScanOver(first: char, text: string, after: nat, raw: Word32, sep: string, glue: string, rest: string,
                 letter: char, tail: string, k: nat, stores: seq<S.Store>)
    requires Reads(first, text, raw, after) && Separates(sep)
    requires glue == " " + sep || (glue == sep && (sep[0] == ' ' || after == 0))
    ensures var scan := ['%', ScanLetter(letter)] + tail;
      S.Scan(text + (sep + rest), ['%', ScanLetter(first)] + (glue + scan), k, stores)
        == S.Scan(rest, scan, k + 1, stores + [S.Store(k, raw)])
  {
    var scan := ['%', ScanLetter(letter)] + tail;
    var done := stores + [S.Store(k, raw)];
    assert EndsField(sep + rest);
    hide S.Scan, S.ReadField, ScanLetter;
    ScanStep(first, text + (sep + rest), glue + scan, raw, Repeat(' ', after) + (sep + rest), k, stores);
    var left := ScanGlue(glue, sep, after, rest, scan, k + 1, done);
    ScanIgnoresBlanks(letter, rest, tail, k + 1, done);
  }

  /** Scanning what was printed, from the k-th argument and pointer on. */
  lemma {:induction false} ScanPrinted(fields: seq<Field>, sep: string, glue: string, args: P.Args, k: nat,
                                       stores: seq<S.Store>)
    requires fields != [] && AllWellFormed(fields) && Separates(sep) && Glues(glue, sep, fields)
    ensures RoundTrips(PrintFormat(fields, sep), ScanFormat(fields, glue), args, k, |fields|, stores)
    decreases |fields|
  {
    hide P.Format, S.Scan;
    if |fields| == 1 {
      ScanLast(fields[0], args, k, stores);
    } else {
      var rest := fields[1..];
      ScanPrinted(rest, sep, glue, args, k + 1, stores + [S.Store(k, args(k))]);
      var tail := ScanFormatStarts(rest, glue);
      ScanMore(fields[0], sep, glue, PrintFormat(rest, sep), rest[0].letter, tail, args, k, |rest|, stores);
    }
  }

  /** The first characters of a C string read with that limit. */
  function ReadString(s: string, limit: nat): string {
    if |s| <= limit then s else s[..limit]
  }

  const STRING_LIMIT := 4096

  /** Integers printed through any literal flags, widths and precisions, with a
      separator between that does not continue a number, scan back to the same
      32-bit words, one through each pointer, as long as the two formats and the
      text fit the reads. */
  lemma PrintScanRoundTrip(fields: seq<Field>, sep: string, glue: string, args: P.Args)
    requires fields != [] && AllWellFormed(fields) && Separates(sep) && Glues(glue, sep, fields)
    ensures |PrintFormat(fields, sep)| <= STRING_LIMIT ==>
      var out := P.Format(ReadString(PrintFormat(fields, sep), STRING_LIMIT), args, 0);
      && out.Text?
      && (|out.text| <= STRING_LIMIT && |ScanFormat(fields, glue)| <= STRING_LIMIT ==>
        S.Scan(ReadString(out.text, STRING_LIMIT), ReadString(ScanFormat(fields, glue), STRING_LIMIT), 0, [])
          == S.Scanned(StoresFrom(args, 0, |fields|)))
  {
    ScanPrinted(fields, sep, glue, args, 0, []);
    assert [] + StoresFrom(args, 0, |fields|) == StoresFrom(args, 0, |fields|);
  }

  // ---- Flags, width and precision ----

  /** A field is as wide as asked, or as its text: at the left with spaces after,
      at the right with spaces before, or filled with zeros after its sign. */
  lemma PadPlaces(val: string, d: P.Directive)
    ensures var r := P.Pad(val, d);
      && |r| == (if |val| < d.width then d.width else |val|)
      && (d.flags.left ==> r == val + Repeat(' ', |r| - |val|))
      && (!d.flags.left && (!d.flags.zero || d.spec == 's' || d.spec == 'c') ==> r == Repeat(' ', |r| - |val|) + val)
  {
    if |val| >= d.width {
      assert val + Repeat(' ', 0) == val && Repeat(' ', 0) + val == val;
    } else if !d.flags.left && d.flags.zero && val != "" {
      assert |[val[0]] + Repeat('0', d.width - |val|) + val[1..]| == d.width;
    }
  }

  /** The precision is the least number of digits. */
  lemma PrecisionIsLeast(digits: string, prec: int)
    ensures |P.ZeroFill(digits, prec)| == if |digits| < prec then prec else |digits|
  {
  }

  /** The sign of a signed conversion: a minus below zero, otherwise what the flags
      ask for, the plus before the space. */
  lemma SignShown(raw: Word32, flags: P.Flags, prec: int)
    ensures var r := P.SignedText(raw, flags, prec); var n: int := AsSigned32(raw);
      && r != ""
      && (r[0] == '-' <==> n < 0)
      && (r[0] == '+' <==> n >= 0 && flags.plus)
      && (r[0] == ' ' <==> n >= 0 && !flags.plus && flags.space)
  {
    var n: int := AsSigned32(raw);
    var plain := ToBase(if n < 0 then -n else n, 10);
    ToBaseDigits(if n < 0 then -n else n, 10);
    FilledStart(plain, prec);
  }

  lemma FilledStart(digits: string, prec: int)
    requires digits != "" && AllDigits(digits, 10)
    ensures P.ZeroFill(digits, prec) != "" && P.IsDecimal(P.ZeroFill(digits, prec)[0])
  {
    assert DigitValue(digits[0]) < 10;
  }

  lemma FillWorth(digits: string, prec: int, b: nat)
    ensures Value(P.ZeroFill(digits, prec), b) == Value(digits, b)
  {
    if prec >= 0 && |digits| < prec { ValueZeros(prec - |digits|, digits, b); }
  }

  /** Octal and pointer conversions show the word too, a pointer with eight digits
      at least. */
  lemma OctalAndPointer(d: P.Directive, raw: Word32)
    requires d.spec == 'o' || d.spec == 'p'
    ensures d.spec == 'o' ==> Value(P.Convert(d, raw), 8) == raw
    ensures d.spec == 'p' ==>
      |P.Convert(d, raw)| >= 10 && P.Convert(d, raw)[..2] == "0x" && Value(P.Convert(d, raw)[2..], 16) == raw
  {
    hide ToBase, Value;
    if d.spec == 'o' {
      ValueToBase(raw, 8);
      FillWorth(ToBase(raw, 8), d.prec, 8);
    } else {
      ValueToBase(raw, 16);
      FillWorth(ToBase(raw, 16), 8, 16);
      assert P.Convert(d, raw)[2..] == P.ZeroFill(ToBase(raw, 16), 8);
    }
  }
}
