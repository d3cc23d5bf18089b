/** _sprintf_format: the printf engine, integer and character conversions. */
module Printf {
  import opened Lists
  import opened LittleEndian
  import opened Numerals

  /** The text, or Unmodelled once a float, string or %n conversion is met. */
  datatype Output = Text(text: string) | Unmodelled

  function Prepend(s: string, o: Output): Output {
    match o case Text(t) => Text(s + t) case Unmodelled => Unmodelled
  }

  datatype Flags = Flags(left: bool, zero: bool, plus: bool, space: bool)

  const NO_FLAGS := Flags(false, false, false, false)

  predicate IsFlag(c: char) {
    c == '-' || c == '0' || c == '+' || c == ' ' || c == '#'
  }

  function AddFlag(f: Flags, c: char): Flags {
    match c
    case '-' => f.(left := true)
    case '0' => f.(zero := true)
    case '+' => f.(plus := true)
    case ' ' => f.(space := true)
    case _ => f
  }

  function TakeFlags(s: string, f: Flags): (r: (Flags, string))
    ensures |r.1| <= |s|
    decreases |s|
  {
    if s != "" && IsFlag(s[0]) then TakeFlags(s[1..], AddFlag(f, s[0])) else (f, s)
  }

  predicate IsDecimal(c: char) {
    '0' <= c <= '9'
  }

  /** A run of decimal digits. */
  function TakeNumber(s: string, acc: nat): (r: (nat, string))
    ensures |r.1| <= |s|
    decreases |s|
  {
    if s != "" && IsDecimal(s[0]) then TakeNumber(s[1..], acc * 10 + DigitValue(s[0])) else (acc, s)
  }

  /** The l, h, L, ll and I64 modifiers, all ignored. */
  function TakeModifier(s: string): (r: string)
    ensures |r| <= |s|
  {
    if s != "" && (s[0] == 'l' || s[0] == 'h' || s[0] == 'L') then
      if |s| > 1 && s[1] == 'l' then s[2..] else s[1..]
    else if |s| > 2 && s[0] == 'I' && s[1] == '6' && s[2] == '4' then s[3..]
    else s
  }

  /** One conversion specification: what follows the percent sign, and the number
      of the next argument. A missing precision is -1. */
  datatype Directive = Directive(flags: Flags, width: nat, prec: int, spec: char, rest: string, next: nat)

  /** Argument words in order. The star takes its number from one of them. */
  type Args = nat -> Word32

  function ParseDirective(s: string, args: Args, k: nat): (d: Directive)
    ensures |d.rest| <= |s|
  {
    var (flags, s1) := TakeFlags(s, NO_FLAGS);
    var star := s1 != "" && s1[0] == '*';
    var (width, s2) := if star then (args(k), s1[1..]) else TakeNumber(s1, 0);
    ParsePrecision(flags, width, s2, args, if star then k + 1 else k)
  }

  function ParsePrecision(flags: Flags, width: nat, s: string, args: Args, k: nat): (d: Directive)
    ensures |d.rest| <= |s|
  {
    if s != "" && s[0] == '.' then
      if |s| > 1 && s[1] == '*' then ParseSpec(flags, width, args(k), s[2..], k + 1)
      else
        var (prec, rest) := TakeNumber(s[1..], 0);
        ParseSpec(flags, width, prec, rest, k)
    else ParseSpec(flags, width, -1, s, k)
  }

  function ParseSpec(flags: Flags, width: nat, prec: int, s: string, k: nat): (d: Directive)
    ensures |d.rest| <= |s|
  {
    var t := TakeModifier(s);
    if t == "" then Directive(flags, width, prec, '?', "", k) else Directive(flags, width, prec, t[0], t[1..], k)
  }

  /** digits, filled with zeros up to the precision */
  function ZeroFill(digits: string, prec: int): string {
    if prec >= 0 && |digits| < prec then Repeat('0', prec - |digits|) + digits else digits
  }

  function SignedText(raw: Word32, flags: Flags, prec: int): string {
    var n: int := AsSigned32(raw);
    var digits := ZeroFill(ToBase(if n < 0 then -n else n, 10), prec);
    if n < 0 then "-" + digits else if flags.plus then "+" + digits else if flags.space then " " + digits else digits
  }

  predicate TakesArgument(spec: char) {
    spec == 'd' || spec == 'i' || spec == 'u' || spec == 'x' || spec == 'X' || spec == 'o' || spec == 'p' || spec == 'c'
  }

  /** Conversions that need memory or floating point. */
  predicate IsForeign(spec: char) {
    spec == 's' || spec == 'f' || spec == 'F' || spec == 'e' || spec == 'E' || spec == 'g' || spec == 'G' || spec == 'n'
  }

  function Convert(d: Directive, raw: Word32): string
    requires !IsForeign(d.spec)
  {
    match d.spec
    case 'd' => SignedText(raw, d.flags, d.prec)
    case 'i' => SignedText(raw, d.flags, d.prec)
    case 'u' => ZeroFill(ToBase(raw, 10), d.prec)
    case 'x' => ZeroFill(ToBase(raw, 16), d.prec)
    case 'X' => ZeroFill(Upper(ToBase(raw, 16)), d.prec)
    case 'o' => ZeroFill(ToBase(raw, 8), d.prec)
    case 'p' => "0x" + ZeroFill(ToBase(raw, 16), 8)
    case 'c' => [(raw % 256) as char]
    case _ => ['%', d.spec]
  }

  /** Widening to the field width. */
  function Pad(val: string, d: Directive): string {
    if |val| >= d.width then val
    else
      var n := d.width - |val|;
      if d.flags.left then val + Repeat(' ', n)
      else if d.flags.zero && d.spec != 's' && d.spec != 'c' then
        if val != "" && (val[0] == '-' || val[0] == '+' || val[0] == ' ') then [val[0]] + Repeat('0', n) + val[1..]
        else Repeat('0', n) + val
      else Repeat(' ', n) + val
  }

  function Format(fmt: string, args: Args, k: nat): Output
    decreases |fmt|
  {
    if fmt == "" then Text("")
    else if fmt[0] != '%' then Prepend([fmt[0]], Format(fmt[1..], args, k))
    else if |fmt| == 1 then Text("")
    else if fmt[1] == '%' then Prepend("%", Format(fmt[2..], args, k))
    else
      var d := ParseDirective(fmt[1..], args, k);
      if IsForeign(d.spec) then Unmodelled
      else
        var next := if TakesArgument(d.spec) then d.next + 1 else d.next;
        Prepend(Pad(Convert(d, args(d.next)), d), Format(d.rest, args, next))
  }

  // ---- The loop ----

  lemma PrependTwice(a: string, b: string, o: Output)
    ensures Prepend(a, Prepend(b, o)) == Prepend(a + b, o)
  {
    if o.Text? { assert a + (b + o.text) == a + b + o.text; }
  }

  lemma PrependNothing(o: Output)
    ensures Prepend("", o) == o
  {
    if o.Text? { assert "" + o.text == o.text; }
  }

  method ScanFlags(fmt: string, start: nat) returns (flags: Flags, i: nat)
    requires start <= |fmt|
    ensures start <= i <= |fmt| && TakeFlags(fmt[start..], NO_FLAGS) == (flags, fmt[i..])
  {
    flags, i := NO_FLAGS, start;
    while i < |fmt| && IsFlag(fmt[i])
      invariant start <= i <= |fmt| && TakeFlags(fmt[i..], flags) == TakeFlags(fmt[start..], NO_FLAGS)
    {
      Drop1(fmt, i);
      flags := AddFlag(flags, fmt[i]);
      i := i + 1;
    }
  }

  method ScanNumber(fmt: string, start: nat) returns (n: nat, i: nat)
    requires start <= |fmt|
    ensures start <= i <= |fmt| && TakeNumber(fmt[start..], 0) == (n, fmt[i..])
  {
    n, i := 0, start;
    while i < |fmt| && IsDecimal(fmt[i])
      invariant start <= i <= |fmt| && TakeNumber(fmt[i..], n) == TakeNumber(fmt[start..], 0)
    {
      Drop1(fmt, i);
      n := n * 10 + DigitValue(fmt[i]);
      i := i + 1;
    }
  }

  /** Reads the specification at start, after the percent sign. */
  method ScanDirective(fmt: string, start: nat, args: Args, k: nat) returns (d: Directive, i: nat)
    requires start <= |fmt|
    ensures start <= i <= |fmt| && d == ParseDirective(fmt[start..], args, k) && d.rest == fmt[i..]
  {
    hide TakeFlags, TakeNumber, ParsePrecision;
    var flags, at := ScanFlags(fmt, start);
    if at < |fmt| && fmt[at] == '*' {
      Drop1(fmt, at);
      d, i := ScanPrecision(fmt, at + 1, flags, args(k), args, k + 1);
    } else {
      assert fmt[at..] != "" ==> fmt[at..][0] == fmt[at];
      var width, after := ScanNumber(fmt, at);
      d, i := ScanPrecision(fmt, after, flags, width, args, k);
    }
  }

  method ScanPrecision(fmt: string, start: nat, flags: Flags, width: nat, args: Args, k: nat)
    returns (d: Directive, i: nat)
    requires start <= |fmt|
    ensures start <= i <= |fmt| && d == ParsePrecision(flags, width, fmt[start..], args, k) && d.rest == fmt[i..]
  {
    if start < |fmt| && fmt[start] == '.' {
      Drop1(fmt, start);
      if start + 1 < |fmt| && fmt[start + 1] == '*' {
        Drop1(fmt, start + 1);
        assert fmt[start..][2..] == fmt[start + 2..];
        d, i := ScanSpec(fmt, start + 2, flags, width, args(k), k + 1);
      } else {
        var prec, after := ScanNumber(fmt, start + 1);
        d, i := ScanSpec(fmt, after, flags, width, prec, k);
      }
    } else {
      assert fmt[start..] != "" ==> fmt[start..][0] == fmt[start];
      d, i := ScanSpec(fmt, start, flags, width, -1, k);
    }
  }

  method ScanSpec(fmt: string, start: nat, flags: Flags, width: nat, prec: int, k: nat) returns (d: Directive, i: nat)
    requires start <= |fmt|
    ensures start <= i <= |fmt| && d == ParseSpec(flags, width, prec, fmt[start..], k) && d.rest == fmt[i..]
  {
    var at := ScanModifier(fmt, start);
    if at < |fmt| {
      Drop1(fmt, at);
      return Directive(flags, width, prec, fmt[at], fmt[at + 1..], k), at + 1;
    }
    return Directive(flags, width, prec, '?', "", k), at;
  }

  method ScanModifier(fmt: string, start: nat) returns (i: nat)
    requires start <= |fmt|
    ensures start <= i <= |fmt| && TakeModifier(fmt[start..]) == fmt[i..]
  {
    i := start;
    ghost var s := fmt[start..];
    if i < |fmt| && (fmt[i] == 'l' || fmt[i] == 'h' || fmt[i] == 'L') {
      i := i + 1;
      if i < |fmt| && fmt[i] == 'l' {
        i := i + 1;
      }
      assert |s| > 1 ==> s[1] == fmt[start + 1];
    } else if i + 2 < |fmt| && fmt[i] == 'I' && fmt[i + 1] == '6' && fmt[i + 2] == '4' {
      i := i + 3;
    }
    assert s[i - start..] == fmt[i..];
  }

  method SprintfFormat(fmt: string, args: Args) returns (out: Output)
    ensures out == Format(fmt, args, 0)
  {
    var text := "";
    var i: nat, k: nat := 0, 0;
    assert fmt[0..] == fmt;
    PrependNothing(Format(fmt, args, 0));
    while i < |fmt|
      invariant i <= |fmt|
      invariant Prepend(text, Format(fmt[i..], args, k)) == Format(fmt, args, 0)
    {
      Drop1(fmt, i);
      if fmt[i] != '%' {
        PrependTwice(text, [fmt[i]], Format(fmt[i + 1..], args, k));
        text, i := text + [fmt[i]], i + 1;
      } else if i + 1 >= |fmt| {
        assert text + "" == text;
        return Text(text);
      } else if fmt[i + 1] == '%' {
        assert fmt[i..][1] == '%' && fmt[i..][2..] == fmt[i + 2..];
        PrependTwice(text, "%", Format(fmt[i + 2..], args, k));
        text, i := text + "%", i + 2;
      } else {
        assert fmt[i..][1] == fmt[i + 1];
        var d, after := ScanDirective(fmt, i + 1, args, k);
        if IsForeign(d.spec) { return Unmodelled; }
        var val := Pad(Convert(d, args(d.next)), d);
        k := if TakesArgument(d.spec) then d.next + 1 else d.next;
        PrependTwice(text, val, Format(fmt[after..], args, k));
        text, i := text + val, after;
      }
    }
    assert text + "" == text;
    out := Text(text);
  }
}
