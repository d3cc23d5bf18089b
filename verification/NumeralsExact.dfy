/** What number texts are and what _wtoi takes of a text, character by character. */
module NumeralsExact {
  import opened LittleEndian
  import opened Numerals
  import PrintExact

  const DIGITS := "0123456789abcdefghijklmnopqrstuvwxyz"

  function Power(b: nat, n: nat): nat {
    if n == 0 then 1 else b * Power(b, n - 1)
  }

  /** The digits in order, either case, and nothing else. */
  lemma DigitsMean(d: nat, c: char)
    requires d < 36
    ensures DigitChar(d) == DIGITS[d]
    ensures DigitValue(c) == d <==> c == DIGITS[d] || (d >= 10 && c as int == DIGITS[d] as int - 32)
  {
    assert DIGITS[d] as int == if d < 10 then 0x30 + d else 0x57 + d;
  }

  /** Digits count by their place. */
  lemma {:induction false} ValueJoins(s: string, t: string, b: nat)
    ensures Value(s + t, b) == Value(s, b) * Power(b, |t|) + Value(t, b)
    decreases |t|
  {
    if t == "" {
      assert s + t == s;
    } else {
      var u, c := t[..|t| - 1], t[|t| - 1];
      assert s + t == (s + u) + [c] && t == u + [c];
      LastDigit(s + u, c, b);
      LastDigit(u, c, b);
      ValueJoins(s, u, b);
      Distributes(Value(s, b), Power(b, |u|), Value(u, b), b);
    }
  }

  lemma Distributes(x: nat, p: nat, y: nat, b: nat)
    ensures (x * p + y) * b == x * (b * p) + y * b
  {
  }

  /** A blank of C: a space, or a tab, line or page break. */
  predicate CBlanks(s: string) {
    forall k :: 0 <= k < |s| ==> s[k] as int == 0x20 || 9 <= s[k] as int <= 13
  }

  /** A character int() gets to see: a digit or a superscript 1, 2 or 3. */
  predicate DigitLike(c: char) {
    var n := c as int;
    '0' <= c <= '9' || n == 0xb2 || n == 0xb3 || n == 0xb9
  }

  predicate AllDigitLike(s: string) {
    forall k :: 0 <= k < |s| ==> DigitLike(s[k])
  }

  lemma {:induction false} BlanksSkipped(blanks: string, s: string)
    requires CBlanks(blanks) && (s == "" || !CBlanks(s[..1]))
    ensures SkipCSpace(blanks + s) == s
    decreases |blanks|
  {
    if blanks == "" {
      assert blanks + s == s;
      assert s != "" ==> s[..1][0] == s[0];
    } else {
      assert (blanks + s)[1..] == blanks[1..] + s;
      BlanksSkipped(blanks[1..], s);
    }
  }

  lemma TokenIs(token: string, t: string)
    requires AllDigitLike(token) && (t == "" || !DigitLike(t[0]))
    ensures Token(token + t) == token
  {
    var s := token + t;
    var n := DigitCount(s);
    assert forall k :: 0 <= k < |token| ==> s[k] == token[k];
    assert t != "" ==> s[|token|] == t[0];
    assert s[..|token|] == token;
  }

  /** _wtoi skips blanks, takes a sign and the digits after it, and gives their worth;
      0 without digits; a superscript among them raises. */
  lemma WtoiTakes(blanks: string, lead: string, token: string, t: string)
    requires CBlanks(blanks) && AllDigitLike(token) && (t == "" || !DigitLike(t[0]))
    requires lead == "+" || lead == "-" || lead == ""
    requires lead == "" && token + t != "" ==>
      !CBlanks((token + t)[..1]) && (token + t)[0] != '+' && (token + t)[0] != '-'
    ensures Wtoi(blanks + (lead + (token + t)))
      == if exists k :: 0 <= k < |token| && !('0' <= token[k] <= '9') then Raises
         else Number(Wrapped(lead == "-", Value(token, 10)))
  {
    var s := lead + (token + t);
    StartIs(lead, token + t);
    BlanksSkipped(blanks, s);
    TokenIs(token, t);
    SignedIs(lead == "-", token);
    hide Wtoi, SkipCSpace, Token, Value, Signed, CBlanks, AllDigitLike, Wrapped;
    SignTaken(blanks + s, lead, token + t, token);
  }

  lemma SignTaken(s: string, lead: string, rest: string, token: string)
    requires SkipCSpace(s) == lead + rest && Token(rest) == token
    requires lead == "+" || lead == "-" || (lead == "" && (rest == "" || (rest[0] != '+' && rest[0] != '-')))
    ensures Wtoi(s) == Signed(lead == "-", token)
  {
    hide SkipCSpace, Token, Signed;
    assert lead == "" ==> lead + rest == rest;
    assert lead != "" ==> (lead + rest)[0] == lead[0] && (lead + rest)[1..] == rest;
  }

  /** A sign is no blank. */
  lemma StartIs(lead: string, s: string)
    requires lead == "+" || lead == "-" || lead == ""
    requires lead == "" && s != "" ==> !CBlanks(s[..1])
    ensures lead == "" ==> lead + s == s
    ensures lead != "" ==> lead + s != "" && (lead + s)[0] == lead[0] && (lead + s)[1..] == s
    ensures lead + s == "" || !CBlanks((lead + s)[..1])
  {
    assert lead == "" ==> lead + s == s;
    assert lead != "" ==> (lead + s)[..1][0] == lead[0];
  }

  lemma SignedIs(negative: bool, token: string)
    requires AllDigitLike(token)
    ensures Signed(negative, token)
      == if exists k :: 0 <= k < |token| && !('0' <= token[k] <= '9') then Raises
         else Number(Wrapped(negative, Value(token, 10)))
  {
    assert Value("", 10) == 0;
    hide Value;
  }

  /** A number or its negative, modulo 2^32. */
  function Wrapped(negative: bool, n: nat): Word32 {
    var v: int := n;
    (if negative then -v else v) % 0x1_0000_0000
  }

  /** _itoa writes no leading zero; in base 10 it writes a minus and the magnitude for
      what is negative as a signed number. */
  lemma ItoaWrites(raw: Word32, radix: nat) returns (negative: bool, digits: string)
    requires 2 <= radix <= 36
    ensures negative <==> radix == 10 && raw >= 0x8000_0000
    ensures Itoa(raw, radix) == Digits(if negative then "-" + digits else digits)
    ensures Value(digits, radix) == if negative then 0x1_0000_0000 - raw else raw
    ensures digits != "" && (digits[0] == '0' ==> raw == 0 && |digits| == 1)
    ensures forall k :: 0 <= k < |digits| ==> digits[k] in DIGITS[..radix]
  {
    negative := radix == 10 && raw >= 0x8000_0000;
    var n := if negative then 0x1_0000_0000 - raw else raw;
    digits := ToBase(n, radix);
    InBaseIs(n, radix);
    PlainDigits(n, radix);
    hide InBase, ToBase, Value, DIGITS;
  }

  lemma PlainDigits(n: nat, radix: nat)
    requires 2 <= radix <= 36
    ensures var digits := ToBase(n, radix);
      && Value(digits, radix) == n
      && digits != "" && (digits[0] == '0' ==> n == 0 && |digits| == 1)
      && forall k :: 0 <= k < |digits| ==> digits[k] in DIGITS[..radix]
  {
    var digits := ToBase(n, radix);
    ValueToBase(n, radix);
    PrintExact.ToBasePlain(n, radix);
    hide ToBase, Value;
    forall k | 0 <= k < |digits| ensures digits[k] in DIGITS[..radix] {
      InTable(digits[k], radix);
    }
  }

  lemma InTable(c: char, radix: nat)
    requires radix <= 36 && DigitValue(c) < radix && ('0' <= c <= '9' || 'a' <= c <= 'z')
    ensures c in DIGITS[..radix]
  {
    var d := DigitValue(c);
    DigitsMean(d, c);
    assert DIGITS[..radix][d] == DIGITS[d];
  }
}
