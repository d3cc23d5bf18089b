/** _sscanf, integer conversions. */
module Scanf {
  import opened Lists
  import opened LittleEndian
  import opened Numerals

  /** One word written through the pointer argument of that number. */
  datatype Store = Store(pointer: nat, value: Word32)

  /** What a call writes; Fails where int() refuses a digit run; Unmodelled where a
      string, character or float conversion is met. */
  datatype Scanned = Scanned(stores: seq<Store>) | Fails | Unmodelled

  predicate IsBlank(c: char) {
    c == ' ' || c == '\t' || c == '\n' || c == '\r'
  }

  function Skip(s: string): (r: string)
    ensures |r| <= |s| && (r == "" || !IsBlank(r[0]))
    decreases |s|
  {
    if s != "" && IsBlank(s[0]) then Skip(s[1..]) else s
  }

  predicate IsHex(c: char) {
    DigitValue(c) < 16
  }

  /** How many characters a number takes, used of them already read; 0 as the
      maximum is no maximum. */
  function Run(s: string, hex: bool, used: nat, max: nat): (n: nat)
    ensures n <= |s|
    decreases |s|
  {
    if s != "" && (if hex then IsHex(s[0]) else IsDigit(s[0])) && (max == 0 || used < max)
    then 1 + Run(s[1..], hex, used + 1, max)
    else 0
  }

  /** A number read and what is left, no number, or an exception. */
  datatype Read = Value(value: Word32, rest: string) | Nothing(rest: string) | Stop | Refused

  function ReadDigits(negative: bool, s: string, used: nat, max: nat): Read {
    var n := Run(s, false, used, max);
    if n == 0 then Stop
    else if !NoSuperscript(s[..n]) then Refused
    else Value(ToWord(SignedValue(negative, s[..n])), s[n..])
  }

  function ReadSigned(s: string, max: nat): Read {
    if s != "" && (s[0] == '+' || s[0] == '-') then ReadDigits(s[0] == '-', s[1..], 1, max)
    else ReadDigits(false, s, 0, max)
  }

  predicate HasHexPrefix(s: string) {
    |s| > 1 && s[0] == '0' && (s[1] == 'x' || s[1] == 'X')
  }

  function ReadHex(s: string, max: nat): Read {
    var used := if HasHexPrefix(s) then 2 else 0;
    var t := s[used..];
    var n := Run(t, true, used, max);
    if n == 0 then if used == 0 then Stop else Refused
    else Value(ToWord(Numerals.Value(t[..n], 16)), t[n..])
  }

  function ReadNumber(spec: char, s: string, max: nat): Read
    requires IsInteger(spec)
  {
    if spec == 'x' then ReadHex(s, max) else if spec == 'u' then ReadDigits(false, s, 0, max) else ReadSigned(s, max)
  }

  predicate IsInteger(spec: char) {
    spec == 'd' || spec == 'i' || spec == 'u' || spec == 'x'
  }

  predicate IsForeign(spec: char) {
    spec == 'f' || spec == 'e' || spec == 'g' || spec == 's' || spec == 'c'
  }

  function SkipModifier(s: string): (r: string)
    ensures |r| <= |s|
  {
    if s != "" && (s[0] == 'l' || s[0] == 'h' || s[0] == 'L') then
      if |s| > 1 && s[1] == 'l' then s[2..] else s[1..]
    else s
  }

  /** A conversion specification after its percent sign: its letter, maximum
      width and the format after it; none if the format ends first. */
  datatype Spec = Spec(letter: char, max: nat, rest: string) | NoSpec | BadWidth

  function ParseSpec(fmt: string): (r: Spec)
    ensures r.Spec? ==> |r.rest| < |fmt|
  {
    var digits := DigitCount(fmt);
    var rest := SkipModifier(fmt[digits..]);
    if fmt == "" then NoSpec
    else if !NoSuperscript(fmt[..digits]) then BadWidth
    else if rest == "" then NoSpec
    else Spec(rest[0], Numerals.Value(fmt[..digits], 10), rest[1..])
  }

  /** What one conversion reads. Letters that are no conversion read nothing but
      use up a pointer. */
  function ReadField(src: string, letter: char, max: nat): Read
    requires !IsForeign(letter)
  {
    if IsInteger(letter) then ReadNumber(letter, Skip(src), max)
    else Nothing(if letter == '[' then src else Skip(src))
  }

  /** The loop: text and format still to come, the next pointer argument, and the
      stores so far. */
  function Scan(src: string, fmt: string, pointer: nat, stores: seq<Store>): Scanned
    decreases |fmt|
  {
    if fmt == "" then Scanned(stores)
    else if fmt[0] == ' ' then Scan(Skip(src), fmt[1..], pointer, stores)
    else if fmt[0] != '%' then Scan(if src != "" && src[0] == fmt[0] then src[1..] else src, fmt[1..], pointer, stores)
    else
      match ParseSpec(fmt[1..])
      case NoSpec => Scanned(stores)
      case BadWidth => Fails
      case Spec(letter, max, rest) =>
        if IsForeign(letter) then Unmodelled
        else
          match ReadField(src, letter, max)
          case Stop => Scanned(stores)
          case Refused => Fails
          case Nothing(left) => Scan(left, rest, pointer + 1, stores)
          case Value(v, left) => Scan(left, rest, pointer + 1, stores + [Store(pointer, v)])
  }

  // ---- The loops ----

  method SkipBlanks(src: string, start: nat) returns (i: nat)
    requires start <= |src|
    ensures start <= i <= |src| && src[i..] == Skip(src[start..])
  {
    i := start;
    while i < |src| && IsBlank(src[i])
      invariant start <= i <= |src| && Skip(src[i..]) == Skip(src[start..])
    {
      Drop1(src, i);
      i := i + 1;
    }
  }

  /** Where the digits from at end; the token began at start. */
  method TakeRun(src: string, hex: bool, start: nat, at: nat, max: nat) returns (i: nat)
    requires start <= at <= |src|
    ensures i == at + Run(src[at..], hex, at - start, max) <= |src|
  {
    i := at;
    while i < |src| && (if hex then IsHex(src[i]) else IsDigit(src[i]))
      invariant at <= i <= |src|
      invariant Run(src[at..], hex, at - start, max) == i - at + Run(src[i..], hex, i - start, max)
    {
      Drop1(src, i);
      if max != 0 && i - start >= max { break; }
      i := i + 1;
    }
  }

  method TakeDigits(src: string, negative: bool, start: nat, at: nat, max: nat) returns (r: Read, i: nat)
    requires start <= at <= |src|
    ensures i <= |src| && r == ReadDigits(negative, src[at..], at - start, max) && (r.Value? ==> r.rest == src[i..])
  {
    i := TakeRun(src, false, start, at, max);
    TokenAt(src, at, i);
    r := if i == at then Stop else if !NoSuperscript(src[at..i]) then Refused
    else Value(ToWord(SignedValue(negative, src[at..i])), src[i..]);
  }

  lemma HexStart(src: string, start: nat, at: nat)
    requires start <= |src|
    requires at ==
      if start + 1 < |src| && src[start] == '0' && (src[start + 1] == 'x' || src[start + 1] == 'X') then start + 2
      else start
    ensures at == start + if HasHexPrefix(src[start..]) then 2 else 0
    ensures at <= |src| && src[start..][at - start..] == src[at..]
  {
  }

  lemma TokenAt(src: string, at: nat, i: nat)
    requires at <= i <= |src|
    ensures src[at..][..i - at] == src[at..i] && src[at..][i - at..] == src[i..]
  {
  }

  method TakeHex(src: string, start: nat, max: nat) returns (r: Read, i: nat)
    requires start <= |src|
    ensures i <= |src| && r == ReadHex(src[start..], max) && (r.Value? ==> r.rest == src[i..])
  {
    var at := start;
    if start + 1 < |src| && src[start] == '0' && (src[start + 1] == 'x' || src[start + 1] == 'X') { at := start + 2; }
    HexStart(src, start, at);
    i := TakeRun(src, true, start, at, max);
    TokenAt(src, at, i);
    hide Run, HasHexPrefix;
    r := if i == start then Stop else if i == at then Refused
    else Value(ToWord(Numerals.Value(src[at..i], 16)), src[i..]);
  }

  method TakeNumber(src: string, letter: char, start: nat, max: nat) returns (r: Read, i: nat)
    requires start <= |src| && IsInteger(letter)
    ensures i <= |src| && r == ReadNumber(letter, src[start..], max) && (r.Value? ==> r.rest == src[i..])
  {
    if letter == 'x' {
      r, i := TakeHex(src, start, max);
    } else if letter != 'u' && start < |src| && (src[start] == '+' || src[start] == '-') {
      Drop1(src, start);
      r, i := TakeDigits(src, src[start] == '-', start, start + 1, max);
    } else {
      assert src[start..] != "" ==> src[start..][0] == src[start];
      r, i := TakeDigits(src, false, start, start, max);
    }
  }

  /** The width digits at start, and where they end. */
  method TakeWidth(fmt: string, start: nat) returns (width: string, i: nat)
    requires start <= |fmt|
    ensures start <= i <= |fmt|
    ensures width == fmt[start..][..DigitCount(fmt[start..])] && fmt[i..] == fmt[start..][DigitCount(fmt[start..])..]
  {
    i := start;
    while i < |fmt| && IsDigit(fmt[i])
      invariant start <= i <= |fmt| && DigitCount(fmt[start..]) == i - start + DigitCount(fmt[i..])
    {
      Drop1(fmt, i);
      i := i + 1;
    }
    width := fmt[start..i];
  }

  method TakeModifier(fmt: string, start: nat) returns (i: nat)
    requires start <= |fmt|
    ensures start <= i <= |fmt| && fmt[i..] == SkipModifier(fmt[start..])
  {
    i := start;
    if i < |fmt| && (fmt[i] == 'l' || fmt[i] == 'h' || fmt[i] == 'L') {
      i := i + 1;
      if i < |fmt| && fmt[i] == 'l' { i := i + 1; }
      assert |fmt[start..]| > 1 ==> fmt[start..][1] == fmt[start + 1];
    }
    assert fmt[start..][i - start..] == fmt[i..];
  }

  method TakeSpec(fmt: string, start: nat) returns (r: Spec, i: nat)
    requires start <= |fmt|
    ensures start <= i <= |fmt| && r == ParseSpec(fmt[start..]) && (r.Spec? ==> i > start && r.rest == fmt[i..])
  {
    if start >= |fmt| { return NoSpec, start; }
    var width, afterWidth := TakeWidth(fmt, start);
    if !NoSuperscript(width) { return BadWidth, afterWidth; }
    i := TakeModifier(fmt, afterWidth);
    if i >= |fmt| { return NoSpec, i; }
    Drop1(fmt, i);
    return Spec(fmt[i], Numerals.Value(width, 10), fmt[i + 1..]), i + 1;
  }

  method TakeField(src: string, letter: char, start: nat, max: nat) returns (r: Read, i: nat)
    requires start <= |src| && !IsForeign(letter)
    ensures i <= |src| && r == ReadField(src[start..], letter, max) && (r.Value? || r.Nothing? ==> r.rest == src[i..])
  {
    i := start;
    if letter != '[' {
      i := SkipBlanks(src, start);
    }
    if IsInteger(letter) {
      r, i := TakeNumber(src, letter, i, max);
    } else {
      r := Nothing(src[i..]);
    }
  }

  method Sscanf(src: string, fmt: string) returns (result: Scanned)
    ensures result == Scan(src, fmt, 0, [])
  {
    var at: nat, fi: nat, pointer: nat, stores: seq<Store> := 0, 0, 0, [];
    assert src[0..] == src && fmt[0..] == fmt;
    while fi < |fmt|
      invariant at <= |src| && fi <= |fmt|
      invariant Scan(src[at..], fmt[fi..], pointer, stores) == Scan(src, fmt, 0, [])
    {
      Drop1(fmt, fi);
      if fmt[fi] == ' ' {
        at := SkipBlanks(src, at);
        fi := fi + 1;
      } else if fmt[fi] != '%' {
        if at < |src| { Drop1(src, at); }
        if at < |src| && src[at] == fmt[fi] {
          at := at + 1;
        }
        fi := fi + 1;
      } else {
        var spec, after := TakeSpec(fmt, fi + 1);
        if spec.BadWidth? { return Fails; }
        if spec.NoSpec? { return Scanned(stores); }
        if IsForeign(spec.letter) { return Unmodelled; }
        var read, left := TakeField(src, spec.letter, at, spec.max);
        if read.Stop? { return Scanned(stores); }
        if read.Refused? { return Fails; }
        if read.Value? {
          stores := stores + [Store(pointer, read.value)];
        }
        at, fi, pointer := left, after, pointer + 1;
      }
    }
    result := Scanned(stores);
  }
}
