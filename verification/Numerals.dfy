/** Numbers written in a base: Python's str and format, _int_to_base, int(text, base);
    _itoa and _wtoi. */
module Numerals {
  import opened Lists
  import opened LittleEndian

  /** The text of one digit: entry d of the table _DIGITS. */
  function DigitChar(d: nat): char
    requires d < 36
  {
    if d < 10 then ('0' as int + d) as char else ('a' as int + d - 10) as char
  }

  function ToBase(n: nat, b: nat): string
    requires 2 <= b <= 36
  {
    if n < b then [DigitChar(n)]
    else
      DivideShrinks(n, b);
      ToBase(n / b, b) + [DigitChar(n % b)]
  }

  /** What a digit of either case is worth, 36 for any other character. */
  function DigitValue(c: char): (d: nat)
    ensures d <= 36
  {
    if '0' <= c <= '9' then c as int - '0' as int
    else if 'a' <= c <= 'z' then c as int - 'a' as int + 10
    else if 'A' <= c <= 'Z' then c as int - 'A' as int + 10
    else 36
  }

  predicate AllDigits(s: string, b: nat) {
    forall k :: 0 <= k < |s| ==> DigitValue(s[k]) < b
  }

  /** int(s, b) on digits alone */
  function Value(s: string, b: nat): nat {
    if s == "" then 0 else Value(s[..|s| - 1], b) * b + DigitValue(s[|s| - 1])
  }

  lemma LastDigit(t: string, c: char, b: nat)
    ensures Value(t + [c], b) == Value(t, b) * b + DigitValue(c)
  {
    assert (t + [c])[..|t|] == t;
  }

  function UpperChar(c: char): char {
    if 'a' <= c <= 'z' then (c as int - 32) as char else c
  }

  function Upper(s: string): (r: string)
    ensures |r| == |s| && forall k :: 0 <= k < |s| ==> r[k] == UpperChar(s[k])
  {
    seq(|s|, k requires 0 <= k < |s| => UpperChar(s[k]))
  }

  lemma DigitCharValue(d: nat)
    requires d < 36
    ensures DigitValue(DigitChar(d)) == d && DigitValue(UpperChar(DigitChar(d))) == d
    ensures d < 10 ==> '0' <= DigitChar(d) <= '9'
  {
  }

  lemma Divide(n: nat, b: nat)
    requires b > 0
    ensures n / b * b + n % b == n && 0 <= n % b < b && n / b >= 0
  {
  }

  lemma TwiceAtMost(q: nat, b: nat)
    requires b >= 2
    ensures q * b >= q + q
  {
    assert q * b == q * 2 + q * (b - 2);
  }

  lemma DivideShrinks(n: nat, b: nat)
    requires b > 1 && n > 0
    ensures n / b < n
  {
    Divide(n, b);
    TwiceAtMost(n / b, b);
  }

  lemma {:induction false} ToBaseDigits(n: nat, b: nat)
    requires 2 <= b <= 36
    ensures ToBase(n, b) != "" && AllDigits(ToBase(n, b), b)
    decreases n
  {
    Divide(n, b);
    DigitCharValue(n % b);
    if n < b {
      DigitCharValue(n);
    } else {
      DivideShrinks(n, b);
      ToBaseDigits(n / b, b);
    }
  }

  /** Reading a number back. */
  lemma {:induction false} ValueToBase(n: nat, b: nat)
    requires 2 <= b <= 36
    ensures Value(ToBase(n, b), b) == n
    decreases n
  {
    Divide(n, b);
    if n < b {
      DigitCharValue(n);
      OneDigit(DigitChar(n), b);
    } else {
      DivideShrinks(n, b);
      DigitCharValue(n % b);
      ValueToBase(n / b, b);
      LastDigit(ToBase(n / b, b), DigitChar(n % b), b);
    }
  }

  lemma OneDigit(c: char, b: nat)
    ensures Value([c], b) == DigitValue(c)
  {
    assert [c][..0] == "";
  }

  lemma {:induction false} ValueUpper(s: string, b: nat)
    ensures Value(Upper(s), b) == Value(s, b)
    decreases |s|
  {
    if s != "" {
      ValueUpper(s[..|s| - 1], b);
      assert Upper(s)[..|s| - 1] == Upper(s[..|s| - 1]);
    }
  }

  /** Leading zeros change nothing. */
  lemma {:induction false} ValueZeros(n: nat, s: string, b: nat)
    ensures Value(Repeat('0', n) + s, b) == Value(s, b)
    decreases n + |s|
  {
    var t := Repeat('0', n) + s;
    if s != "" {
      ValueZeros(n, s[..|s| - 1], b);
      assert t[..|t| - 1] == Repeat('0', n) + s[..|s| - 1];
    } else if n > 0 {
      ValueZeros(n - 1, s, b);
      assert t[..|t| - 1] == Repeat('0', n - 1) + s;
    }
  }

  function Reversed(s: string): (r: string)
    ensures |r| == |s|
  {
    if s == "" then "" else Reversed(s[1..]) + [s[0]]
  }

  // ---- _int_to_base ----

  /** A text; or an exception for a digit past the table or for radix 0; or a loop
      that never ends, for radix 1. */
  datatype BaseText = Digits(text: string) | NoDigit | DividesByZero | Endless

  /** Every digit of n in base b is in the table. */
  predicate FitsTable(n: nat, b: nat)
    requires b >= 2
  {
    n == 0 || (DivideShrinks(n, b); n % b < 36 && FitsTable(n / b, b))
  }

  /** The digits of n before those already taken; none for 0. */
  function Remaining(n: nat, b: nat): (r: BaseText)
    requires b >= 2
  {
    if n == 0 then Digits("")
    else
      DivideShrinks(n, b);
      match Remaining(n / b, b)
      case Digits(t) => if n % b < 36 then Digits(t + [DigitChar(n % b)]) else NoDigit
      case other => other
  }

  function InBase(n: nat, b: nat): BaseText {
    if n == 0 then Digits("0") else if b == 0 then DividesByZero else if b == 1 then Endless else Remaining(n, b)
  }

  /** There is a text exactly if all digits are in the table, and it is worth n. */
  lemma {:induction false} RemainingWorth(n: nat, b: nat)
    requires b >= 2
    ensures Remaining(n, b) == NoDigit || Remaining(n, b).Digits?
    ensures Remaining(n, b).Digits? <==> FitsTable(n, b)
    ensures Remaining(n, b).Digits? ==> Value(Remaining(n, b).text, b) == n
    decreases n
  {
    if n > 0 {
      Divide(n, b);
      DivideShrinks(n, b);
      RemainingWorth(n / b, b);
      if Remaining(n, b).Digits? {
        DigitCharValue(n % b);
        LastDigit(Remaining(n / b, b).text, DigitChar(n % b), b);
      }
    }
  }

  lemma {:induction false} RemainingIs(n: nat, b: nat)
    requires 2 <= b <= 36 && n > 0
    ensures Remaining(n, b) == Digits(ToBase(n, b))
    decreases n
  {
    Divide(n, b);
    DivideShrinks(n, b);
    SmallQuotient(n, b);
    if n < b {
      assert Remaining(0, b) == Digits("") && "" + [DigitChar(n)] == [DigitChar(n)];
    } else {
      RemainingIs(n / b, b);
    }
  }

  /** In a base the table covers there always is one. */
  lemma InBaseIs(n: nat, b: nat)
    requires 2 <= b <= 36
    ensures InBase(n, b) == Digits(ToBase(n, b))
  {
    if n > 0 { RemainingIs(n, b); }
  }

  lemma SmallQuotient(v: nat, b: nat)
    requires b > 0
    ensures if v < b then v / b == 0 && v % b == v else v / b > 0
  {
  }

  function Before(rest: BaseText, taken: string): BaseText {
    if rest.Digits? then Digits(rest.text + taken) else rest
  }

  function WithDigit(rest: BaseText, d: nat): BaseText {
    if rest.Digits? && d < 36 then Digits(rest.text + [DigitChar(d)]) else if rest.Digits? then NoDigit else rest
  }

  lemma MoveDigit(rest: BaseText, d: nat, digits: string)
    requires rest.Digits? || rest == NoDigit
    ensures Before(WithDigit(rest, d), Reversed(digits))
      == if d < 36 then Before(rest, Reversed(digits + [DigitChar(d)])) else NoDigit
  {
    if d < 36 {
      ReversedAppend(digits, DigitChar(d));
      hide Reversed;
      if rest.Digits? {
        assert rest.text + [DigitChar(d)] + Reversed(digits) == rest.text + ([DigitChar(d)] + Reversed(digits));
      }
    }
  }

  lemma TakeDigit(v: nat, b: nat, digits: string)
    requires b >= 2 && v > 0
    ensures 0 <= v / b < v && 0 <= v % b < b
    ensures Before(Remaining(v, b), Reversed(digits))
      == if v % b < 36 then Before(Remaining(v / b, b), Reversed(digits + [DigitChar(v % b)])) else NoDigit
  {
    Divide(v, b);
    DivideShrinks(v, b);
    RemainingWorth(v / b, b);
    assert Remaining(v, b) == WithDigit(Remaining(v / b, b), v % b);
    hide Remaining, Reversed, Before, WithDigit, FitsTable, Value;
    MoveDigit(Remaining(v / b, b), v % b, digits);
  }

  /** _int_to_base: the digits, least first, then reversed. */
  method IntToBase(value: nat, radix: nat) returns (r: BaseText)
    ensures r == InBase(value, radix)
  {
    if value == 0 { return Digits("0"); }
    if radix == 0 { return DividesByZero; }
    if radix == 1 { return Endless; }
    var v: nat := value;
    var digits: string := "";
    while v != 0
      invariant Before(Remaining(v, radix), Reversed(digits)) == Remaining(value, radix)
    {
      TakeDigit(v, radix, digits);
      var rem := v % radix;
      if rem >= 36 { return NoDigit; }
      v, digits := v / radix, digits + [DigitChar(rem)];
    }
    var text := Reverse(digits);
    r := Digits(text);
  }

  lemma {:induction false} ReversedAppend(s: string, c: char)
    ensures Reversed(s + [c]) == [c] + Reversed(s)
    decreases |s|
  {
    if s == "" {
      assert (s + [c])[1..] == "" && Reversed("") == "";
    } else {
      ReversedAppend(s[1..], c);
      assert (s + [c])[1..] == s[1..] + [c];
    }
  }

  /** "".join(reversed(s)) */
  method Reverse(s: string) returns (r: string)
    ensures r == Reversed(s)
  {
    r := "";
    assert s[..0] == "";
    for k := 0 to |s|
      invariant r == Reversed(s[..k])
    {
      assert s[..k + 1] == s[..k] + [s[k]];
      ReversedAppend(s[..k], s[k]);
      r := [s[k]] + r;
    }
    assert s[..|s|] == s;
  }

  // ---- _itoa and _wtoi ----

  /** The text _itoa writes: signed in base 10 only. */
  function Itoa(raw: Word32, radix: nat): BaseText {
    if radix == 10 && raw >= 0x8000_0000 then Digits("-" + ToBase(0x1_0000_0000 - raw, 10)) else InBase(raw, radix)
  }

  method ItoaText(raw: Word32, radix: nat) returns (r: BaseText)
    ensures r == Itoa(raw, radix)
  {
    if radix == 10 && raw >= 0x8000_0000 {
      r := IntToBase(0x1_0000_0000 - raw, 10);
      InBaseIs(0x1_0000_0000 - raw, 10);
      r := Digits("-" + r.text);
    } else {
      r := IntToBase(raw, radix);
    }
  }

  /** str.isdigit on Latin-1: the ASCII digits and three superscripts, which int
      then refuses. */
  predicate IsDigit(c: char) {
    '0' <= c <= '9' || IsSuperscript(c)
  }

  predicate IsSuperscript(c: char) {
    c as int == 0xb2 || c as int == 0xb3 || c as int == 0xb9
  }

  predicate NoSuperscript(s: string) {
    forall k :: 0 <= k < |s| ==> !IsSuperscript(s[k])
  }

  predicate IsCSpace(c: char) {
    c == ' ' || 9 <= c as int <= 13
  }

  /** How many digits s starts with. */
  function DigitCount(s: string): (n: nat)
    ensures n <= |s| && (forall k :: 0 <= k < n ==> IsDigit(s[k])) && (n < |s| ==> !IsDigit(s[n]))
  {
    if s == "" || !IsDigit(s[0]) then 0 else 1 + DigitCount(s[1..])
  }

  function SkipCSpace(s: string): (r: string)
    ensures |r| <= |s|
  {
    if s != "" && IsCSpace(s[0]) then SkipCSpace(s[1..]) else s
  }

  datatype Result = Number(value: Word32) | Raises

  function SignedValue(negative: bool, token: string): int {
    var v: int := Value(token, 10);
    if negative then -v else v
  }

  /** What a sign and digits are worth. */
  function Signed(negative: bool, token: string): Result {
    if token == "" then Number(0)
    else if !NoSuperscript(token) then Raises
    else Number(ToWord(SignedValue(negative, token)))
  }

  function Token(body: string): string {
    body[..DigitCount(body)]
  }

  /** _wtoi */
  function Wtoi(s: string): Result {
    var t := SkipCSpace(s);
    if t != "" && (t[0] == '+' || t[0] == '-') then Signed(t[0] == '-', Token(t[1..])) else Signed(false, Token(t))
  }

  method WtoiScan(s: string) returns (r: Result)
    ensures r == Wtoi(s)
  {
    var i := 0;
    assert s[0..] == s;
    while i < |s| && IsCSpace(s[i])
      invariant i <= |s| && SkipCSpace(s[i..]) == SkipCSpace(s)
    {
      assert s[i..][1..] == s[i + 1..];
      i := i + 1;
    }
    assert SkipCSpace(s) == s[i..];
    var negative := false;
    if i < |s| && (s[i] == '+' || s[i] == '-') {
      negative := s[i] == '-';
      assert s[i..][1..] == s[i + 1..];
      i := i + 1;
    }
    assert Wtoi(s) == Signed(negative, Token(s[i..]));
    var stop := DigitsFrom(s, i);
    if i == stop { return Number(0); }
    if !NoSuperscript(s[i..stop]) { return Raises; }
    r := Number(ToWord(SignedValue(negative, s[i..stop])));
  }

  /** Where the digits from start end. */
  method DigitsFrom(s: string, start: nat) returns (i: nat)
    requires start <= |s|
    ensures start <= i <= |s| && s[start..i] == Token(s[start..])
  {
    i := start;
    while i < |s| && IsDigit(s[i])
      invariant start <= i <= |s| && DigitCount(s[start..]) == i - start + DigitCount(s[i..])
    {
      assert s[i..][1..] == s[i + 1..];
      i := i + 1;
    }
  }

  lemma AsciiToken(s: string)
    requires s != "" && AllDigits(s, 10)
    ensures DigitCount(s) == |s| && NoSuperscript(s) && !IsCSpace(s[0]) && s[0] != '+' && s[0] != '-' && s[..|s|] == s
  {
    forall k | 0 <= k < |s| ensures '0' <= s[k] <= '9' {
      assert DigitValue(s[k]) < 10;
    }
  }

  lemma SignedToken(s: string, negative: bool)
    requires s != "" && AllDigits(s, 10)
    ensures Signed(negative, Token(s)) == Number(ToWord(SignedValue(negative, s)))
  {
    AsciiToken(s);
  }

  lemma WtoiDigits(digits: string, negative: bool)
    requires digits != "" && AllDigits(digits, 10)
    ensures Wtoi(if negative then "-" + digits else digits) == Number(ToWord(SignedValue(negative, digits)))
  {
    AsciiToken(digits);
    SignedToken(digits, negative);
    hide Signed, Token, SignedValue, AllDigits;
    if negative {
      var t := "-" + digits;
      assert t[1..] == digits && SkipCSpace(t) == t;
    }
  }

  lemma Negated(raw: Word32)
    ensures ToWord(-(0x1_0000_0000 - raw)) == raw && ToWord(raw) == raw
  {
  }

  /** _wtoi undoes _itoa in base 10, for every 32-bit value. */
  lemma WtoiItoa(raw: Word32)
    ensures Itoa(raw, 10).Digits? && Wtoi(Itoa(raw, 10).text) == Number(raw)
  {
    var negative := raw >= 0x8000_0000;
    var n := if negative then 0x1_0000_0000 - raw else raw;
    Negated(raw);
    hide InBase, ToBase, ToWord, Wtoi, Value;
    InBaseIs(n, 10);
    ValueToBase(n, 10);
    ToBaseDigits(n, 10);
    WtoiDigits(ToBase(n, 10), negative);
  }

  /** In any other base there is a text exactly for 0 and for values whose digits are
      all in the table, as they are up to base 36, and it is worth the unsigned value. */
  lemma ItoaUnsigned(raw: Word32, radix: nat)
    requires radix != 10 || raw < 0x8000_0000
    ensures Itoa(raw, radix).Digits? <==> raw == 0 || (radix >= 2 && FitsTable(raw, radix))
    ensures 2 <= radix <= 36 ==> Itoa(raw, radix).Digits?
    ensures Itoa(raw, radix).Digits? ==> Value(Itoa(raw, radix).text, radix) == raw
  {
    if raw == 0 {
      OneDigit('0', radix);
    } else if radix >= 2 {
      RemainingWorth(raw, radix);
      if radix <= 36 { InBaseIs(raw, radix); }
    }
  }
}
