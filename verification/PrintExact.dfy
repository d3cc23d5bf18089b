/** What a printed field is, character by character, from its own texts. */
module PrintExact {
  import opened Lists
  import opened LittleEndian
  import opened Numerals
  import opened PrintScan
  import P = Printf

  predicate IsNumber(letter: char) {
    letter == 'd' || letter == 'i' || letter == 'u' || letter == 'x' || letter == 'X' || letter == 'o'
  }

  function BaseOf(letter: char): nat {
    if letter == 'x' || letter == 'X' || letter == 'p' then 16 else if letter == 'o' then 8 else 10
  }

  /** The one way to write n: no leading zero, letters in the case of the conversion. */
  predicate Canonical(digits: string, n: nat, letter: char) {
    && digits != "" && Value(digits, BaseOf(letter)) == n && (digits[0] == '0' ==> n == 0 && |digits| == 1)
    && forall k :: 0 <= k < |digits| ==>
      if letter == 'X' then '0' <= digits[k] <= '9' || 'A' <= digits[k] <= 'F'
      else if BaseOf(letter) == 16 then '0' <= digits[k] <= '9' || 'a' <= digits[k] <= 'f'
      else '0' <= digits[k] <= '9'
  }

  /** ToBase writes no leading zero and no capital. */
  lemma {:induction false} ToBasePlain(n: nat, b: nat)
    requires 2 <= b <= 36
    ensures ToBase(n, b) != "" && (ToBase(n, b)[0] == '0' ==> n == 0 && |ToBase(n, b)| == 1)
    ensures forall k :: 0 <= k < |ToBase(n, b)| ==>
      DigitValue(ToBase(n, b)[k]) < b && ('0' <= ToBase(n, b)[k] <= '9' || 'a' <= ToBase(n, b)[k] <= 'z')
    decreases n
  {
    Divide(n, b);
    DigitCharValue(n % b);
    if n < b {
      DigitCharValue(n);
    } else {
      DivideShrinks(n, b);
      SmallQuotient(n, b);
      ToBasePlain(n / b, b);
    }
  }

  lemma DigitsCanonical(n: nat, letter: char)
    requires letter != 'X'
    ensures Canonical(ToBase(n, BaseOf(letter)), n, letter)
  {
    ToBasePlain(n, BaseOf(letter));
    ValueToBase(n, BaseOf(letter));
  }

  lemma CapitalsCanonical(n: nat)
    ensures Canonical(Upper(ToBase(n, 16)), n, 'X')
  {
    var s := ToBase(n, 16);
    ToBasePlain(n, 16);
    ValueToBase(n, 16);
    ValueUpper(s, 16);
    forall k | 0 <= k < |s| ensures '0' <= Upper(s)[k] <= '9' || 'A' <= Upper(s)[k] <= 'F' {
      assert DigitValue(s[k]) < 16;
    }
  }

  function Max(a: int, b: int): int {
    if a < b then b else a
  }

  predicate Signed(letter: char) {
    letter == 'd' || letter == 'i'
  }

  /** The number to print without its sign. */
  function Magnitude(letter: char, raw: Word32): nat {
    if Signed(letter) && raw >= 0x8000_0000 then 0x1_0000_0000 - raw else raw
  }

  /** A minus below zero; else the plus or the space the flags ask for, the plus first. */
  function Lead(letter: char, raw: Word32, flags: string): string {
    if !Signed(letter) then ""
    else if raw >= 0x8000_0000 then "-"
    else if '+' in flags then "+" else if ' ' in flags then " " else ""
  }

  /** A text of spaces, a sign, zeros, digits and spaces. */
  datatype Printed = Printed(before: nat, lead: string, zeros: nat, digits: string, after: nat)

  function Text(p: Printed): string {
    Repeat(' ', p.before) + p.lead + Repeat('0', p.zeros) + p.digits + Repeat(' ', p.after)
  }

  /** What a field prints of a word: zeros up to the precision, then filled to the
      width after the number for '-', else with zeros after the sign for '0', else
      before the sign. */
  ghost predicate Shown(f: Field, raw: Word32, p: Printed) {
    && Canonical(p.digits, Magnitude(f.letter, raw), f.letter)
    && p.lead == Lead(f.letter, raw, f.flags)
    && var least := Max(|p.digits|, Value(f.prec, 10));
       var pad := Max(0, Value(f.width, 10) - |p.lead| - least);
       if '-' in f.flags then p.before == 0 && p.zeros == least - |p.digits| && p.after == pad
       else if '0' in f.flags then p.before == 0 && p.zeros == least - |p.digits| + pad && p.after == 0
       else p.before == pad && p.zeros == least - |p.digits| && p.after == 0
  }

  lemma ZerosJoin(a: nat, b: nat, s: string)
    ensures Repeat('0', a) + (Repeat('0', b) + s) == Repeat('0', a + b) + s
  {
  }

  lemma FilledIs(digits: string, prec: int) returns (zeros: nat)
    ensures zeros == Max(|digits|, prec) - |digits| && P.ZeroFill(digits, prec) == Repeat('0', zeros) + digits
  {
    zeros := Max(|digits|, prec) - |digits|;
    assert Repeat('0', 0) + digits == digits;
  }

  lemma SignedIs(letter: char, raw: Word32, flags: string, prec: int)
    requires Signed(letter)
    ensures P.SignedText(raw, FlagsOf(flags), prec)
      == Lead(letter, raw, flags) + P.ZeroFill(ToBase(Magnitude(letter, raw), 10), prec)
  {
    hide P.ZeroFill, ToBase;
    var filled := P.ZeroFill(ToBase(Magnitude(letter, raw), 10), prec);
    assert "" + filled == filled;
  }

  /** The digits a conversion writes. */
  lemma DigitsAre(letter: char, raw: Word32) returns (digits: string)
    requires IsNumber(letter)
    ensures var n := Magnitude(letter, raw);
      && Canonical(digits, n, letter)
      && digits == if letter == 'X' then Upper(ToBase(n, 16)) else ToBase(n, BaseOf(letter))
  {
    var n := Magnitude(letter, raw);
    if letter == 'X' { CapitalsCanonical(n); } else { DigitsCanonical(n, letter); }
    digits := if letter == 'X' then Upper(ToBase(n, 16)) else ToBase(n, BaseOf(letter));
  }

  /** A converted number before padding. */
  lemma ConvertIs(d: P.Directive, flags: string, raw: Word32) returns (digits: string, zeros: nat)
    requires IsNumber(d.spec) && d.flags == FlagsOf(flags)
    ensures Canonical(digits, Magnitude(d.spec, raw), d.spec) && zeros == Max(|digits|, d.prec) - |digits|
    ensures P.Convert(d, raw) == Lead(d.spec, raw, flags) + (Repeat('0', zeros) + digits)
  {
    digits := DigitsAre(d.spec, raw);
    hide Canonical, ToBase, Upper, P.ZeroFill, P.SignedText;
    zeros := FilledIs(digits, d.prec);
    if Signed(d.spec) {
      SignedIs(d.spec, raw, flags, d.prec);
    } else {
      assert "" + P.ZeroFill(digits, d.prec) == P.ZeroFill(digits, d.prec);
    }
  }

  lemma PadIs(d: P.Directive, lead: string, zeros: nat, digits: string) returns (p: Printed)
    requires digits != "" && d.spec != 's' && d.spec != 'c'
    requires digits[0] != '-' && digits[0] != '+' && digits[0] != ' '
    requires lead == "" || lead == "-" || lead == "+" || lead == " "
    ensures p.lead == lead && p.digits == digits
    ensures P.Pad(lead + (Repeat('0', zeros) + digits), d) == Text(p)
    ensures var pad := Max(0, d.width - |lead| - zeros - |digits|);
      if d.flags.left then p.before == 0 && p.zeros == zeros && p.after == pad
      else if d.flags.zero then p.before == 0 && p.zeros == zeros + pad && p.after == 0
      else p.before == pad && p.zeros == zeros && p.after == 0
  {
    var val := lead + (Repeat('0', zeros) + digits);
    var pad := Max(0, d.width - |val|);
    TextIs(lead, zeros, digits, pad);
    p := if d.flags.left then Printed(0, lead, zeros, digits, pad)
      else if d.flags.zero then Printed(0, lead, zeros + pad, digits, 0)
      else Printed(pad, lead, zeros, digits, 0);
    ZeroPad(lead, zeros, digits, pad);
    hide Text;
  }

  /** Zeros go in after the sign. */
  lemma ZeroPad(lead: string, zeros: nat, digits: string, pad: nat)
    requires digits != "" && digits[0] != '-' && digits[0] != '+' && digits[0] != ' '
    requires lead == "" || lead == "-" || lead == "+" || lead == " "
    ensures var val := lead + (Repeat('0', zeros) + digits); var filled := lead + (Repeat('0', zeros + pad) + digits);
      && val != ""
      && if val[0] == '-' || val[0] == '+' || val[0] == ' ' then [val[0]] + Repeat('0', pad) + val[1..] == filled
         else Repeat('0', pad) + val == filled
  {
    var val := lead + (Repeat('0', zeros) + digits);
    assert val[0] == if lead != "" then lead[0] else if zeros > 0 then '0' else digits[0];
    ZerosJoin(pad, zeros, digits);
    if lead != "" {
      assert val[1..] == Repeat('0', zeros) + digits && [val[0]] == lead;
    } else {
      assert val == Repeat('0', zeros) + digits;
    }
  }

  lemma TextIs(lead: string, zeros: nat, digits: string, pad: nat)
    ensures Text(Printed(0, lead, zeros, digits, pad)) == lead + (Repeat('0', zeros) + digits) + Repeat(' ', pad)
    ensures Text(Printed(0, lead, zeros, digits, 0)) == lead + (Repeat('0', zeros) + digits)
    ensures Text(Printed(0, lead, zeros + pad, digits, 0)) == lead + (Repeat('0', zeros + pad) + digits)
    ensures Text(Printed(pad, lead, zeros, digits, 0)) == Repeat(' ', pad) + (lead + (Repeat('0', zeros) + digits))
  {
  }

  lemma CanonicalStart(digits: string, n: nat, letter: char)
    requires Canonical(digits, n, letter)
    ensures digits != "" && digits[0] != '-' && digits[0] != '+' && digits[0] != ' '
  {
  }

  /** The printed text of a field, whatever follows it. */
  lemma FieldPrints(f: Field, rest: string, args: P.Args, k: nat) returns (p: Printed)
    requires Readable(f) && IsNumber(f.letter)
    ensures P.Format(FieldText(f) + rest, args, k) == P.Prepend(Text(p), P.Format(rest, args, k + 1))
    ensures Shown(f, args(k), p)
  {
    NoPrecision(f);
    hide P.Format, P.Convert, P.Pad, FieldText, Text, Readable, Value, Canonical, Magnitude, Max;
    var d := FormatField(f, rest, args, k);
    var digits, zeros := ConvertIs(d, f.flags, args(k));
    CanonicalStart(digits, Magnitude(f.letter, args(k)), f.letter);
    p := PadIs(d, Lead(f.letter, args(k), f.flags), zeros, digits);
    PadLeft(Value(f.width, 10), |p.lead|, |digits|, zeros, Max(|digits|, Value(f.prec, 10)));
  }

  lemma PadLeft(width: nat, lead: nat, digits: nat, zeros: nat, least: int)
    requires zeros == least - digits
    ensures Max(0, width - lead - zeros - digits) == Max(0, width - lead - least)
  {
  }

  /** Without a dot the precision asks for no digits. */
  lemma NoPrecision(f: Field)
    requires Readable(f)
    ensures forall n: nat :: Max(n, PrecisionOf(f)) == Max(n, Value(f.prec, 10))
  {
  }

  // ---- Pointers, characters, stars and plain text ----

  /** A text widened to the field: on the right for '-', with zeros before it for '0'
      where zeros may be, else with spaces before it. */
  predicate Widened(f: Field, val: string, zeros: bool, text: string) {
    var pad := Max(0, Value(f.width, 10) - |val|);
    text == if '-' in f.flags then val + Repeat(' ', pad)
            else if zeros && '0' in f.flags then Repeat('0', pad) + val
            else Repeat(' ', pad) + val
  }

  lemma WidenedIs(f: Field, d: P.Directive, val: string)
    requires d.flags == FlagsOf(f.flags) && d.width == Value(f.width, 10)
    requires val != "" && (d.spec == 'c' || (val[0] != '-' && val[0] != '+' && val[0] != ' ')) && d.spec != 's'
    ensures Widened(f, val, d.spec != 'c', P.Pad(val, d))
  {
    assert Repeat('0', 0) + val == val && Repeat(' ', 0) + val == val && val + Repeat(' ', 0) == val;
  }

  /** A pointer is 0x and eight hexadecimal digits, whatever the precision. */
  lemma PointerPrints(f: Field, rest: string, args: P.Args, k: nat) returns (digits: string, text: string)
    requires Readable(f) && f.letter == 'p'
    ensures P.Format(FieldText(f) + rest, args, k) == P.Prepend(text, P.Format(rest, args, k + 1))
    ensures Canonical(digits, args(k), 'p') && |digits| <= 8
    ensures Widened(f, "0x" + Repeat('0', 8 - |digits|) + digits, true, text)
  {
    hide P.Format, Readable, FieldText;
    var d := FormatField(f, rest, args, k);
    digits := ToBase(args(k), 16);
    text := P.Pad(P.Convert(d, args(k)), d);
    DigitsCanonical(args(k), 'p');
    EightDigits(args(k));
    hide Canonical, ToBase, P.Pad;
    EightFilled(digits);
    WidenedIs(f, d, P.Convert(d, args(k)));
  }

  lemma EightFilled(digits: string)
    requires |digits| <= 8
    ensures "0x" + P.ZeroFill(digits, 8) == "0x" + Repeat('0', 8 - |digits|) + digits
  {
    assert Repeat('0', 0) + digits == digits;
  }

  /** A character is the low byte of its word. */
  lemma CharacterPrints(f: Field, rest: string, args: P.Args, k: nat) returns (text: string)
    requires Readable(f) && f.letter == 'c'
    ensures P.Format(FieldText(f) + rest, args, k) == P.Prepend(text, P.Format(rest, args, k + 1))
    ensures Widened(f, [(args(k) % 0x100) as char], false, text)
  {
    hide P.Format, Readable, FieldText, P.Pad;
    var d := FormatField(f, rest, args, k);
    text := P.Pad(P.Convert(d, args(k)), d);
    WidenedIs(f, d, P.Convert(d, args(k)));
  }

  /** A word has at most eight hexadecimal digits. */
  lemma EightDigits(raw: Word32)
    ensures |ToBase(raw, 16)| <= 8
  {
    Shorter(raw, 8);
  }

  function Power16(n: nat): nat {
    if n == 0 then 1 else 16 * Power16(n - 1)
  }

  lemma {:induction false} Shorter(n: nat, digits: nat)
    requires digits > 0 && n < Power16(digits)
    ensures |ToBase(n, 16)| <= digits
    decreases digits
  {
    if n >= 16 { Shorter(n / 16, digits - 1); }
  }

  /** The specification of f with stars in place of its width or its precision. */
  function Starred(f: Field, width: bool, prec: bool, rest: string): string {
    f.flags + ((if width then "*" else f.width) + ((if prec then ".*" else PrecisionText(f)) + (Tail(f) + rest)))
  }

  /** A star for the width or the precision takes it from the next argument, the
      width first; the value to print is the one after. */
  lemma StarsRead(f: Field, width: bool, prec: bool, rest: string, args: P.Args, k: nat)
    requires Readable(f)
    ensures var at := if width then k + 1 else k;
      P.ParseDirective(Starred(f, width, prec, rest), args, k)
        == P.Directive(FlagsOf(f.flags), if width then args(k) else Value(f.width, 10),
                       if prec then args(at) else PrecisionOf(f), f.letter, rest, if prec then at + 1 else at)
  {
    var t := (if prec then ".*" else PrecisionText(f)) + (Tail(f) + rest);
    var w := if width then "*" else f.width;
    TailStart(f, rest);
    assert t != "" && !P.IsDecimal(t[0]) && !P.IsFlag(t[0]) && t[0] != '*' by {
      if prec || f.dot { assert t[0] == '.'; } else { assert t == Tail(f) + rest; }
    }
    var u := w + t;
    assert u != "" && !P.IsFlag(u[0]) && (u[0] == '*' <==> width) by {
      assert u[0] == if w != "" then w[0] else t[0];
    }
    FlagsTaken(f.flags, u, P.NO_FLAGS);
    if width {
      assert u[1..] == t;
    } else {
      NumberTaken("", f.width, t);
      assert "" + f.width == f.width;
    }
    var at := if width then k + 1 else k;
    var wide := if width then args(k) else Value(f.width, 10);
    hide P.TakeFlags, P.TakeNumber, P.ParsePrecision, PrecisionText, Tail, Readable, FlagsOf, PrecisionOf;
    StarPrecision(f, prec, rest, FlagsOf(f.flags), wide, args, at);
  }

  lemma StarPrecision(f: Field, prec: bool, rest: string, flags: P.Flags, width: nat, args: P.Args, k: nat)
    requires Readable(f)
    ensures P.ParsePrecision(flags, width, (if prec then ".*" else PrecisionText(f)) + (Tail(f) + rest), args, k)
      == P.Directive(flags, width, if prec then args(k) else PrecisionOf(f), f.letter, rest, if prec then k + 1 else k)
  {
    if prec {
      var s := ".*" + (Tail(f) + rest);
      assert s[2..] == Tail(f) + rest;
      SpecRead(f, rest, flags, width, args(k), k + 1);
    } else {
      PrecisionRead(f, rest, flags, width, args, k);
    }
  }

  /** The conversions of strings, of floating-point numbers and of %n. */
  predicate NeedsMore(letter: char) {
    letter == 's' || letter == 'f' || letter == 'F' || letter == 'e' || letter == 'E' || letter == 'g' || letter == 'G'
    || letter == 'n'
  }

  /** A letter that is no conversion is copied with its percent sign, widened like a
      number, and uses up no argument. */
  lemma UnknownPrints(f: Field, rest: string, args: P.Args, k: nat) returns (text: string)
    requires Readable(f) && !IsNumber(f.letter) && f.letter != 'p' && f.letter != 'c' && !NeedsMore(f.letter)
    ensures P.Format(FieldText(f) + rest, args, k) == P.Prepend(text, P.Format(rest, args, k))
    ensures Widened(f, ['%', f.letter], true, text)
  {
    Regroup(f, rest);
    DirectiveRead(f, rest, args, k);
    FirstNotPercent(f, rest);
    var s := AfterPercent(f, rest);
    var fmt := FieldText(f) + rest;
    assert fmt[1] == s[0] && fmt[1..] == s;
    hide P.ParseDirective, P.Pad;
    var d := P.ParseDirective(s, args, k);
    text := P.Pad(['%', f.letter], d);
    assert P.Convert(d, args(d.next)) == ['%', f.letter];
    WidenedIs(f, d, ['%', f.letter]);
  }

  /** A character that is no percent sign is copied, two percent signs are one, and a
      last one alone is nothing. */
  lemma PlainText(c: char, rest: string, args: P.Args, k: nat)
    ensures c != '%' ==> P.Format([c] + rest, args, k) == P.Prepend([c], P.Format(rest, args, k))
    ensures P.Format("%%" + rest, args, k) == P.Prepend("%", P.Format(rest, args, k))
    ensures P.Format("%", args, k) == P.Text("")
  {
    assert ([c] + rest)[1..] == rest;
    assert ("%%" + rest)[2..] == rest;
  }
}
