/** Text operations the INI code uses, on Latin-1 text: character classes, strip,
    lower, finding a character and splitting into lines; and what each of them
    keeps of a text. What an INI file makes of them is in Ini. */
module IniText {

  /** The characters str.strip removes. */
  predicate IsSpace(c: char) {
    c == ' ' || 9 <= c as int <= 13 || 0x1c <= c as int <= 0x1f || c as int == 0x85 || c as int == 0xa0
  }

  /** The characters str.splitlines breaks at. */
  predicate IsBreak(c: char) {
    10 <= c as int <= 13 || 0x1c <= c as int <= 0x1e || c as int == 0x85
  }

  /** str.lower on one character. */
  function LowerChar(c: char): char {
    if 'A' <= c <= 'Z' || (0xc0 <= c as int <= 0xde && c as int != 0xd7) then (c as int + 32) as char else c
  }

  lemma LowerCharFacts(c: char)
    ensures LowerChar(LowerChar(c)) == LowerChar(c)
    ensures IsSpace(LowerChar(c)) == IsSpace(c) && IsBreak(LowerChar(c)) == IsBreak(c)
    ensures LowerChar(c) == '[' <==> c == '['
    ensures LowerChar(c) == ']' <==> c == ']'
    ensures LowerChar(c) == '=' <==> c == '='
    ensures LowerChar(c) == ';' <==> c == ';'
    ensures LowerChar(c) == '#' <==> c == '#'
  {
  }

  function Lower(s: string): (r: string)
    ensures |r| == |s| && forall k :: 0 <= k < |s| ==> r[k] == LowerChar(s[k])
  {
    seq(|s|, k requires 0 <= k < |s| => LowerChar(s[k]))
  }

  lemma LowerTwice(s: string)
    ensures Lower(Lower(s)) == Lower(s)
  {
    forall k | 0 <= k < |s| ensures Lower(Lower(s))[k] == Lower(s)[k] {
      LowerCharFacts(s[k]);
    }
  }

  function LStrip(s: string): (r: string)
    ensures r == "" || !IsSpace(r[0])
    ensures |r| <= |s|
  {
    if s != "" && IsSpace(s[0]) then LStrip(s[1..]) else s
  }

  function RStrip(s: string): (r: string)
    ensures r == "" || !IsSpace(r[|r| - 1])
    ensures |r| <= |s|
  {
    if s != "" && IsSpace(s[|s| - 1]) then RStrip(s[..|s| - 1]) else s
  }

  function Strip(s: string): string {
    RStrip(LStrip(s))
  }

  /** No space at either end. */
  predicate Trimmed(s: string) {
    s == "" || (!IsSpace(s[0]) && !IsSpace(s[|s| - 1]))
  }

  lemma StripTrimmed(s: string)
    ensures Trimmed(Strip(s))
  {
    if LStrip(s) != "" { RStripKeepsFront(LStrip(s)); }
  }

  lemma TrimmedStrip(s: string)
    requires Trimmed(s)
    ensures Strip(s) == s
  {
  }

  lemma {:induction false} LStripPart(s: string)
    ensures LStrip(s) == s[|s| - |LStrip(s)|..]
    decreases |s|
  {
    if s != "" && IsSpace(s[0]) { LStripPart(s[1..]); }
  }

  lemma {:induction false} RStripPart(s: string)
    ensures RStrip(s) == s[..|RStrip(s)|]
    decreases |s|
  {
    if s != "" && IsSpace(s[|s| - 1]) { RStripPart(s[..|s| - 1]); }
  }

  /** Strip keeps a contiguous part of the text. */
  lemma StripPart(s: string)
    ensures exists a, b :: 0 <= a <= b <= |s| && Strip(s) == s[a..b]
  {
    LStripPart(s);
    RStripPart(LStrip(s));
    var a := |s| - |LStrip(s)|;
    assert Strip(s) == s[a..a + |Strip(s)|];
  }

  /** Strip keeps the front if it is not a space. */
  lemma StripFront(s: string)
    requires s != "" && !IsSpace(s[0])
    ensures Strip(s) != "" && Strip(s)[0] == s[0]
  {
    RStripKeepsFront(s);
  }

  lemma {:induction false} RStripKeepsFront(s: string)
    requires s != "" && !IsSpace(s[0])
    ensures RStrip(s) != "" && RStrip(s)[0] == s[0]
    decreases |s|
  {
    if IsSpace(s[|s| - 1]) {
      RStripKeepsFront(s[..|s| - 1]);
    }
  }

  /** Stripping the right end first changes nothing. */
  lemma {:induction false} StripRStrip(s: string)
    ensures Strip(RStrip(s)) == Strip(s)
    decreases |s|
  {
    if s != "" && IsSpace(s[0]) {
      StripRStrip(s[1..]);
      if RStrip(s[1..]) == "" {
        AllSpaces(s);
      } else {
        RStripTail(s);
        assert RStrip(s)[1..] == RStrip(s[1..]);
      }
    } else if s != "" {
      RStripKeepsFront(s);
      RStripTwice(s);
    }
  }

  lemma RStripTwice(s: string)
    ensures RStrip(RStrip(s)) == RStrip(s)
  {
  }

  lemma {:induction false} RStripTail(s: string)
    requires s != "" && RStrip(s[1..]) != ""
    ensures RStrip(s) == [s[0]] + RStrip(s[1..])
    decreases |s|
  {
    var t := s[1..];
    assert t[|t| - 1] == s[|s| - 1];
    if IsSpace(s[|s| - 1]) {
      assert s[..|s| - 1][1..] == t[..|t| - 1];
      RStripTail(s[..|s| - 1]);
    } else {
      assert s == [s[0]] + t;
    }
  }

  lemma {:induction false} AllSpaces(s: string)
    requires s != "" && IsSpace(s[0]) && RStrip(s[1..]) == ""
    ensures RStrip(s) == "" && Strip(s) == ""
    decreases |s|
  {
    if |s| == 1 {
      assert s[..0] == "" && s[1..] == "";
    } else {
      var t := s[1..];
      assert IsSpace(t[|t| - 1]) && t[|t| - 1] == s[|s| - 1];
      assert s[..|s| - 1][1..] == t[..|t| - 1];
      AllSpaces(s[..|s| - 1]);
      LStripSpaces(s);
    }
  }

  lemma {:induction false} LStripSpaces(s: string)
    requires RStrip(s) == ""
    ensures LStrip(s) == ""
    decreases |s|
  {
    if s != "" {
      RStripEmptyFront(s);
      LStripSpaces(s[1..]);
    }
  }

  lemma {:induction false} RStripEmptyFront(s: string)
    requires s != "" && RStrip(s) == ""
    ensures IsSpace(s[0]) && RStrip(s[1..]) == ""
    decreases |s|
  {
    if !IsSpace(s[0]) {
      RStripKeepsFront(s);
    }
    if RStrip(s[1..]) != "" {
      RStripTail(s);
    }
  }

  /** Spaces are stripped no further than a character that is none. */
  lemma {:induction false} RStripAfter(front: string, s: string)
    requires front != "" && !IsSpace(front[|front| - 1])
    ensures RStrip(front + s) == front + RStrip(s)
    decreases |s|
  {
    if s == "" {
      assert front + s == front;
    } else {
      assert (front + s)[|front + s| - 1] == s[|s| - 1];
      if IsSpace(s[|s| - 1]) {
        assert (front + s)[..|front + s| - 1] == front + s[..|s| - 1];
        RStripAfter(front, s[..|s| - 1]);
      }
    }
  }

  lemma LowerKeepsTrimmed(s: string)
    requires Trimmed(s)
    ensures Trimmed(Lower(s))
  {
    if s != "" {
      LowerCharFacts(s[0]);
      LowerCharFacts(s[|s| - 1]);
    }
  }

  /** Where c first occurs, |s| if it does not. */
  function IndexOf(s: string, c: char): (i: nat)
    ensures i <= |s| && (forall k :: 0 <= k < i ==> s[k] != c) && (i < |s| ==> s[i] == c)
  {
    if s == "" then 0 else if s[0] == c then 0 else 1 + IndexOf(s[1..], c)
  }

  predicate HasNo(s: string, c: char) {
    forall k :: 0 <= k < |s| ==> s[k] != c
  }

  predicate OneLine(s: string) {
    forall k :: 0 <= k < |s| ==> !IsBreak(s[k])
  }

  /** Where the first line ends. */
  function LineEnd(s: string): (n: nat)
    ensures n <= |s| && OneLine(s[..n]) && (n < |s| ==> IsBreak(s[n]))
  {
    if s == "" || IsBreak(s[0]) then 0 else
      var n := 1 + LineEnd(s[1..]);
      assert s[..n] == [s[0]] + s[1..][..n - 1];
      n
  }

  /** str.splitlines: CR LF is one break, and a final break adds no line. */
  function SplitLines(s: string): seq<string>
    decreases |s|
  {
    if s == "" then []
    else
      var n := LineEnd(s);
      if n == |s| then [s]
      else if s[n] == '\r' && n + 1 < |s| && s[n + 1] == '\n' then [s[..n]] + SplitLines(s[n + 2..])
      else [s[..n]] + SplitLines(s[n + 1..])
  }

  lemma {:induction false} LinesAreOneLine(s: string)
    ensures forall k :: 0 <= k < |SplitLines(s)| ==> OneLine(SplitLines(s)[k])
    decreases |s|
  {
    if s != "" {
      var n := LineEnd(s);
      if n < |s| {
        LinesAreOneLine(s[n + 1..]);
        if n + 1 < |s| { LinesAreOneLine(s[n + 2..]); }
      }
    }
  }

  lemma {:induction false} LineEndIs(p: string, rest: string)
    requires OneLine(p) && (rest == "" || IsBreak(rest[0]))
    ensures LineEnd(p + rest) == |p|
  {
    if p != "" {
      assert (p + rest)[1..] == p[1..] + rest;
      LineEndIs(p[1..], rest);
    } else {
      assert p + rest == rest;
    }
  }

  /** Splitting after a line feed gives back the line. */
  lemma SplitOne(p: string, rest: string)
    requires OneLine(p)
    ensures SplitLines(p + "\n" + rest) == [p] + SplitLines(rest)
  {
    var s := p + "\n" + rest;
    assert s == p + ("\n" + rest);
    LineEndIs(p, "\n" + rest);
    assert s[..|p|] == p && s[|p| + 1..] == rest;
  }
}
