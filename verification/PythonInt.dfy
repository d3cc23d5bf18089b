/** int(text) of Python, on texts of UTF-16 units. */
module PythonInt {
  import opened LittleEndian
  import opened Options

  /** What int() skips around a number. The separators 0x1C to 0x1F are spaces to
      str.strip but not here. */
  predicate IsSpace(u: Unit) {
    || 9 <= u <= 13 || u == 0x20 || u == 0x85 || u == 0xA0 || u == 0x1680 || 0x2000 <= u <= 0x200A
    || u == 0x2028 || u == 0x2029 || u == 0x202F || u == 0x205F || u == 0x3000
  }

  /** The zeros of the decimal digits of the Basic Multilingual Plane, other than '0'. */
  const ZEROS: seq<nat> := [
    0x660, 0x6F0, 0x7C0, 0x966, 0x9E6, 0xA66, 0xAE6, 0xB66, 0xBE6, 0xC66, 0xCE6, 0xD66, 0xDE6, 0xE50, 0xED0, 0xF20,
    0x1040, 0x1090, 0x17E0, 0x1810, 0x1946, 0x19D0, 0x1A80, 0x1A90, 0x1B50, 0x1BB0, 0x1C40, 0x1C50,
    0xA620, 0xA8D0, 0xA900, 0xA9D0, 0xA9F0, 0xAA50, 0xABF0, 0xFF10]

  function FromZero(zeros: seq<nat>, u: Unit): (d: Option<nat>)
    ensures d.Some? ==> d.value < 10
  {
    if zeros == [] then None
    else if zeros[0] <= u < zeros[0] + 10 then Some(u - zeros[0])
    else FromZero(zeros[1..], u)
  }

  /** What a decimal digit of any script is worth. */
  function Digit(u: Unit): (d: Option<nat>)
    ensures d.Some? ==> d.value < 10 && !IsSpace(u) && u != 43 && u != 45 && u != 95
  {
    if u < 127 then if 48 <= u <= 57 then Some(u - 48) else None
    else if IsSpace(u) then None
    else FromZero(ZEROS, u)
  }

  /** Digits with single underscores between them. */
  predicate Literal(t: seq<Unit>) {
    && t != [] && Digit(t[0]).Some? && Digit(t[|t| - 1]).Some?
    && forall k :: 0 <= k < |t| - 1 ==> Digit(t[k]).Some? || (t[k] == 95 && Digit(t[k + 1]).Some?)
  }

  /** The digits' number, underscores skipped. */
  function Worth(t: seq<Unit>): nat {
    if t == [] then 0
    else
      var before, digit := Worth(t[..|t| - 1]), Digit(t[|t| - 1]);
      if digit.Some? then before * 10 + digit.value else before
  }

  function SkipLeft(t: seq<Unit>): seq<Unit> {
    if t != [] && IsSpace(t[0]) then SkipLeft(t[1..]) else t
  }

  function SkipRight(t: seq<Unit>): seq<Unit> {
    if t != [] && IsSpace(t[|t| - 1]) then SkipRight(t[..|t| - 1]) else t
  }

  /** None for the ValueError. */
  function Int(t: seq<Unit>): Option<int> {
    var s := SkipRight(SkipLeft(t));
    var body := if s != [] && (s[0] == 43 || s[0] == 45) then s[1..] else s;
    if !Literal(body) then None
    else
      var value: int := Worth(body);
      Some(if s[0] == 45 then -value else value)
  }

  predicate Spaces(t: seq<Unit>) {
    forall k :: 0 <= k < |t| ==> IsSpace(t[k])
  }

  /** How a number that is not negative is written: spaces, perhaps a plus sign, a
      literal, spaces. */
  ghost predicate Writes(t: seq<Unit>, front: seq<Unit>, sign: seq<Unit>, body: seq<Unit>, back: seq<Unit>, n: nat) {
    t == front + sign + body + back
    && Spaces(front) && Spaces(back) && (sign == [] || sign == [43])
    && Literal(body) && Worth(body) == n
  }

  lemma {:induction false} SkipLeftParts(t: seq<Unit>) returns (front: seq<Unit>)
    ensures t == front + SkipLeft(t) && Spaces(front)
    decreases |t|
  {
    if t != [] && IsSpace(t[0]) {
      front := SkipLeftParts(t[1..]);
      front := [t[0]] + front;
      assert t == [t[0]] + t[1..];
    } else {
      front := [];
    }
  }

  lemma {:induction false} SkipRightParts(t: seq<Unit>) returns (back: seq<Unit>)
    ensures t == SkipRight(t) + back && Spaces(back)
    decreases |t|
  {
    if t != [] && IsSpace(t[|t| - 1]) {
      back := SkipRightParts(t[..|t| - 1]);
      back := back + [t[|t| - 1]];
      assert t == t[..|t| - 1] + [t[|t| - 1]];
    } else {
      back := [];
    }
  }

  lemma {:induction false} SkipsLeft(front: seq<Unit>, rest: seq<Unit>)
    requires Spaces(front) && rest != [] && !IsSpace(rest[0])
    ensures SkipLeft(front + rest) == rest
    decreases |front|
  {
    if front == [] {
      assert front + rest == rest;
    } else {
      assert (front + rest)[1..] == front[1..] + rest;
      SkipsLeft(front[1..], rest);
    }
  }

  lemma {:induction false} SkipsRight(rest: seq<Unit>, back: seq<Unit>)
    requires Spaces(back) && rest != [] && !IsSpace(rest[|rest| - 1])
    ensures SkipRight(rest + back) == rest
    decreases |back|
  {
    if back == [] {
      assert rest + back == rest;
    } else {
      assert (rest + back)[..|rest + back| - 1] == rest + back[..|back| - 1];
      SkipsRight(rest, back[..|back| - 1]);
    }
  }

  /** Any way of writing a number is read as that number. */
  lemma WrittenReads(t: seq<Unit>, front: seq<Unit>, sign: seq<Unit>, body: seq<Unit>, back: seq<Unit>, n: nat)
    requires Writes(t, front, sign, body, back, n)
    ensures Int(t) == Some(n)
  {
    var s := sign + body;
    assert t == front + (s + back);
    assert s[0] == if sign == [] then body[0] else 43;
    assert s[|s| - 1] == body[|body| - 1];
    SkipsLeft(front, s + back);
    SkipsRight(s, back);
    assert sign == [] ==> s == body;
    assert sign != [] ==> s[1..] == body;
  }

  lemma IntParts(t: seq<Unit>, n: nat)
    requires Int(t) == Some(n) && n > 0
    ensures var s := SkipRight(SkipLeft(t));
      s != [] && if s[0] == 43 then Literal(s[1..]) && Worth(s[1..]) == n else Literal(s) && Worth(s) == n
  {
    hide SkipLeft, SkipRight, Worth;
  }

  /** And nothing else is read as one. */
  lemma ReadIsWritten(t: seq<Unit>, n: nat)
    returns (front: seq<Unit>, sign: seq<Unit>, body: seq<Unit>, back: seq<Unit>)
    requires Int(t) == Some(n) && n > 0
    ensures Writes(t, front, sign, body, back, n)
  {
    IntParts(t, n);
    hide Int, SkipLeft, SkipRight, Spaces, Literal, Worth;
    front := SkipLeftParts(t);
    back := SkipRightParts(SkipLeft(t));
    var s := SkipRight(SkipLeft(t));
    if s[0] == 43 {
      sign, body := [43], s[1..];
    } else {
      sign, body := [], s;
    }
    Join(front, s, sign, body, back);
  }

  lemma Join(front: seq<Unit>, s: seq<Unit>, sign: seq<Unit>, body: seq<Unit>, back: seq<Unit>)
    requires if sign == [] then body == s else s != [] && sign == s[..1] && body == s[1..]
    ensures front + (s + back) == front + sign + body + back
  {
    assert s == sign + body;
  }
}
