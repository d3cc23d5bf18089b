/** What an INI file means: each line by its characters, each value by the last line
    that gives it. */
module IniMeaning {
  import opened IniText
  import opened Ini
  import opened IniProfile
  import opened Options

  // ---- Characters ----

  predicate Space(c: char) {
    var n := c as int;
    n == 0x20 || 9 <= n <= 13 || 0x1c <= n <= 0x1f || n == 0x85 || n == 0xa0
  }

  predicate Spaces(s: string) {
    forall k :: 0 <= k < |s| ==> Space(s[k])
  }

  /** s without the spaces at its ends is s[a..b]. */
  predicate Trims(s: string, a: nat, b: nat) {
    a <= b <= |s| && Spaces(s[..a]) && Spaces(s[b..]) && (a < b ==> !Space(s[a]) && !Space(s[b - 1]))
  }

  ghost predicate IsTrim(s: string, t: string) {
    exists a: nat, b: nat :: Trims(s, a, b) && s[a..b] == t
  }

  /** Capital letters, A to Z and those of Latin-1, become small ones. */
  predicate IsLower(s: string, t: string) {
    |s| == |t| && forall k :: 0 <= k < |s| ==>
      var n := s[k] as int;
      t[k] as int == if 0x41 <= n <= 0x5a || (0xc0 <= n <= 0xde && n != 0xd7) then n + 32 else n
  }

  lemma IsLowerIff(s: string, t: string)
    ensures IsLower(s, t) <==> t == Lower(s)
  {
    if IsLower(s, t) {
      forall k | 0 <= k < |s| ensures t[k] == Lower(s)[k] {
        assert LowerChar(s[k]) as int == t[k] as int;
      }
    }
  }

  lemma {:induction false} LStripIs(u: string, s: string)
    requires Spaces(u) && (s == "" || !Space(s[0]))
    ensures LStrip(u + s) == s
    decreases |u|
  {
    if u == "" {
      assert u + s == s;
    } else {
      assert (u + s)[1..] == u[1..] + s;
      LStripIs(u[1..], s);
    }
  }

  lemma {:induction false} RStripIs(s: string, v: string)
    requires Spaces(v) && (s == "" || !Space(s[|s| - 1]))
    ensures RStrip(s + v) == s
    decreases |v|
  {
    if v == "" {
      assert s + v == s;
    } else {
      assert (s + v)[..|s + v| - 1] == s + v[..|v| - 1];
      RStripIs(s, v[..|v| - 1]);
    }
  }

  lemma {:induction false} LStripDrops(s: string) returns (a: nat)
    ensures a <= |s| && Spaces(s[..a]) && LStrip(s) == s[a..] && (a < |s| ==> !Space(s[a]))
    decreases |s|
  {
    if s != "" && IsSpace(s[0]) {
      var n := LStripDrops(s[1..]);
      a := n + 1;
      assert s[..a] == [s[0]] + s[1..][..n];
    } else {
      a := 0;
    }
  }

  lemma {:induction false} RStripDrops(s: string) returns (b: nat)
    ensures b <= |s| && Spaces(s[b..]) && RStrip(s) == s[..b] && (b > 0 ==> !Space(s[b - 1]))
    decreases |s|
  {
    if s != "" && IsSpace(s[|s| - 1]) {
      b := RStripDrops(s[..|s| - 1]);
      assert s[b..] == s[..|s| - 1][b..] + [s[|s| - 1]];
    } else {
      b := |s|;
    }
  }

  /** Where Strip cuts. */
  lemma StripCuts(s: string) returns (a: nat, b: nat)
    ensures Trims(s, a, b) && Strip(s) == s[a..b]
  {
    a := LStripDrops(s);
    var n := RStripDrops(s[a..]);
    b := a + n;
    assert s[a..][..n] == s[a..b] && s[a..][n..] == s[b..];
    if n > 0 { assert s[a..][n - 1] == s[b - 1]; }
  }

  lemma TrimsIs(s: string, a: nat, b: nat)
    requires Trims(s, a, b)
    ensures Strip(s) == s[a..b]
  {
    assert s == s[..a] + s[a..] && s[a..] == s[a..b] + s[b..];
    if a < b {
      LStripIs(s[..a], s[a..]);
      assert s[a..b][|s[a..b]| - 1] == s[b - 1];
      RStripIs(s[a..b], s[b..]);
    } else {
      assert s[a..b] == "" && s == s + "" && s == s[..a] + s[b..];
      assert Spaces(s);
      LStripIs(s, "");
    }
  }

  lemma IsTrimIff(s: string, t: string)
    ensures IsTrim(s, t) <==> t == Strip(s)
  {
    if IsTrim(s, t) {
      var a: nat, b: nat :| Trims(s, a, b) && s[a..b] == t;
      TrimsIs(s, a, b);
    } else {
      var a, b := StripCuts(s);
    }
  }

  lemma SpacesJoin(u: string, v: string)
    requires Spaces(u) && Spaces(v)
    ensures Spaces(u + v)
  {
  }

  lemma TrimsWithin(u: string, s: string, v: string, a: nat, b: nat)
    requires Spaces(u) && Spaces(v) && Trims(s, a, b) && a < b
    ensures var r := u + s + v; Trims(r, |u| + a, |u| + b) && r[|u| + a..|u| + b] == s[a..b]
  {
    var r := u + s + v;
    SpacesJoin(u, s[..a]);
    SpacesJoin(s[b..], v);
    hide Spaces, Space;
    assert r[..|u| + a] == u + s[..a];
    assert r[|u| + b..] == s[b..] + v;
    assert r[|u| + a] == s[a] && r[|u| + b - 1] == s[b - 1];
  }

  lemma AllTrimmed(s: string)
    requires Spaces(s)
    ensures Strip(s) == ""
  {
    assert s[..|s|] == s && s[|s|..] == "" && s[|s|..|s|] == "";
    TrimsIs(s, |s|, |s|);
  }

  /** Spaces around a text do not change what is left of it. */
  lemma StripWithin(u: string, s: string, v: string)
    requires Spaces(u) && Spaces(v)
    ensures Strip(u + s + v) == Strip(s)
  {
    var a, b := StripCuts(s);
    if a < b {
      TrimsWithin(u, s, v, a, b);
      hide Strip, Trims, Spaces;
      TrimsIs(u + s + v, |u| + a, |u| + b);
    } else {
      assert s == s[..a] + s[b..];
      SpacesJoin(s[..a], s[b..]);
      SpacesJoin(u, s);
      SpacesJoin(u + s, v);
      hide Strip, Spaces;
      AllTrimmed(u + s + v);
      assert s[a..b] == "";
    }
  }

  // ---- Lines ----

  datatype Line = Blank | Section(name: string) | Entry(key: string, value: string) | Noise

  /** c is the first character of the line that is no space, at i. */
  predicate StartsAt(raw: string, i: nat, c: char) {
    i < |raw| && raw[i] == c && Spaces(raw[..i])
  }

  predicate FirstAt(raw: string, from: nat, i: nat, c: char) {
    from <= i < |raw| && raw[i] == c && forall k :: from <= k < i ==> raw[k] != c
  }

  /** Spaces only, or a comment after ; or #. */
  ghost predicate IsBlankLine(raw: string) {
    Spaces(raw) || exists i: nat :: StartsAt(raw, i, ';') || StartsAt(raw, i, '#')
  }

  /** [ first and a ] somewhere: the name is between it and the first ]. */
  ghost predicate IsHeaderLine(raw: string, i: nat, j: nat) {
    StartsAt(raw, i, '[') && FirstAt(raw, i, j, ']')
  }

  ghost predicate SectionIs(raw: string, name: string) {
    exists i: nat, j: nat, t :: IsHeaderLine(raw, i, j) && IsTrim(raw[i + 1..j], t) && IsLower(t, name)
  }

  ghost predicate EntryIs(raw: string, key: string, value: string) {
    exists e: nat, t :: FirstAt(raw, 0, e, '=') && IsTrim(raw[..e], t) && IsLower(t, key) && IsTrim(raw[e + 1..], value)
  }

  /** What a line is, by its characters. Whatever follows the ] of a header or
      stands in a value is part of the line: there are no comments after it. */
  ghost predicate Means(raw: string, line: Line) {
    match line
    case Blank => IsBlankLine(raw)
    case Section(name) => SectionIs(raw, name)
    case Entry(key, value) =>
      !IsBlankLine(raw) && (forall i: nat, j: nat :: !IsHeaderLine(raw, i, j)) && EntryIs(raw, key, value)
    case Noise =>
      && !IsBlankLine(raw) && (forall i: nat, j: nat :: !IsHeaderLine(raw, i, j))
      && forall e: nat :: !FirstAt(raw, 0, e, '=')
  }

  lemma OnlyStart(raw: string, a: nat, b: nat, i: nat, c: char)
    requires Trims(raw, a, b) && !Space(c)
    ensures StartsAt(raw, i, c) <==> a < b && i == a && raw[a] == c
  {
    forall k | 0 <= k < a ensures Space(raw[k]) { assert raw[..a][k] == raw[k]; }
    forall k | b <= k < |raw| ensures Space(raw[k]) { assert raw[b..][k - b] == raw[k]; }
    if StartsAt(raw, i, c) {
      forall k | 0 <= k < i ensures Space(raw[k]) { assert raw[..i][k] == raw[k]; }
    }
  }

  /** The first c of a line, in the line without the spaces around it. */
  lemma FirstWithin(raw: string, a: nat, b: nat, i: nat, c: char)
    requires Trims(raw, a, b) && !Space(c)
    ensures FirstAt(raw, a, i, c) <==> i == a + IndexOf(raw[a..b], c) && i < b
    ensures FirstAt(raw, 0, i, c) <==> FirstAt(raw, a, i, c)
  {
    var s := raw[a..b];
    assert forall k :: 0 <= k < |s| ==> s[k] == raw[a + k];
    forall k | 0 <= k < a ensures raw[k] != c { assert raw[..a][k] == raw[k]; }
    forall k | b <= k < |raw| ensures raw[k] != c { assert raw[b..][k - b] == raw[k]; }
    if FirstAt(raw, a, i, c) {
      assert s[i - a] == c;
      assert forall k :: 0 <= k < i - a ==> s[k] != c;
    }
    if i == a + IndexOf(s, c) && i < b {
      assert forall k :: a <= k < i ==> raw[k] == s[k - a];
    }
  }

  /** What a line does. */
  function Effect(p: Parser, line: Line): Parser {
    match line
    case Section(name) => Parser(if Has(p.result, name) then p.result else Put(p.result, name, []), Some(name))
    case Entry(key, value) =>
      if p.current.Some? then p.(result := PutEntry(p.result, p.current.value, key, value)) else p
    case _ => p
  }

  lemma BlankIff(raw: string, a: nat, b: nat)
    requires Trims(raw, a, b)
    ensures IsBlankLine(raw) <==> a == b || raw[a] == ';' || raw[a] == '#'
  {
    if a == b {
      assert raw == raw[..a] + raw[b..];
    } else {
      if raw[a] == ';' || raw[a] == '#' { assert StartsAt(raw, a, ';') || StartsAt(raw, a, '#'); }
      if IsBlankLine(raw) && !Spaces(raw) {
        var i: nat :| StartsAt(raw, i, ';') || StartsAt(raw, i, '#');
        OnlyStart(raw, a, b, i, ';');
        OnlyStart(raw, a, b, i, '#');
      }
    }
  }

  lemma HeaderIff(raw: string, a: nat, b: nat, i: nat, j: nat)
    requires Trims(raw, a, b)
    ensures IsHeaderLine(raw, i, j)
      <==> a < b && i == a && raw[a] == '[' && j == a + IndexOf(raw[a..b], ']') && j < b
  {
    OnlyStart(raw, a, b, i, '[');
    FirstWithin(raw, a, b, j, ']');
  }

  /** The stripped header line, and the text of its name. */
  lemma HeaderCut(raw: string, a: nat, b: nat, i: nat, j: nat)
    requires Trims(raw, a, b) && IsHeaderLine(raw, i, j)
    ensures var line := raw[a..b];
      && line != "" && line[0] == '[' && IndexOf(line, ']') < |line|
      && line[1..IndexOf(line, ']')] == raw[i + 1..j]
  {
    HeaderIff(raw, a, b, i, j);
    hide Trims, IsHeaderLine, IndexOf;
    SliceAgain(raw, a, b, 1, j - a);
  }

  lemma SliceAgain(s: string, a: nat, b: nat, i: nat, j: nat)
    requires a <= b <= |s| && i <= j <= b - a
    ensures s[a..b][i..j] == s[a + i..a + j]
    ensures a < b ==> s[a..b][0] == s[a]
  {
    forall k | 0 <= k < j - i ensures s[a..b][i..j][k] == s[a + i..a + j][k] {
    }
  }

  lemma SectionLine(p: Parser, raw: string, name: string)
    requires SectionIs(raw, name)
    ensures ParseLine(p, raw) == Effect(p, Section(name))
  {
    var i: nat, j: nat, t :| IsHeaderLine(raw, i, j) && IsTrim(raw[i + 1..j], t) && IsLower(t, name);
    var a, b := StripCuts(raw);
    HeaderCut(raw, a, b, i, j);
    IsTrimIff(raw[i + 1..j], t);
    IsLowerIff(t, name);
    hide Strip, Lower, Trims, IsTrim, IsLower, IndexOf, IsHeaderLine;
    HeaderParses(p, raw, raw[a..b], name);
  }

  lemma HeaderParses(p: Parser, raw: string, line: string, name: string)
    requires line == Strip(raw) && line != "" && line[0] == '[' && IndexOf(line, ']') < |line|
    requires SectionName(line) == name
    ensures ParseLine(p, raw) == Effect(p, Section(name))
  {
    hide Strip, Lower, IndexOf, SectionName, Put, Has;
  }

  /** The pieces of an entry, cut from the stripped line. */
  lemma EntryCut(raw: string, a: nat, b: nat, e: nat)
    requires Trims(raw, a, b) && FirstAt(raw, 0, e, '=')
    ensures var line := raw[a..b];
      && IndexOf(line, '=') < |line|
      && EntryKey(line) == Lower(Strip(raw[..e])) && EntryValue(line) == Strip(raw[e + 1..])
  {
    hide IndexOf, Lower, Strip, Spaces;
    FirstWithin(raw, a, b, e, '=');
    NoSpaces();
    StripBefore(raw, a, b, e);
    StripAfter(raw, a, b, e + 1);
  }

  lemma NoSpaces()
    ensures Spaces("")
  {
  }

  lemma StripBefore(raw: string, a: nat, b: nat, e: nat)
    requires a <= e <= b <= |raw| && Spaces(raw[..a]) && Spaces("")
    ensures Strip(raw[..e]) == Strip(raw[a..b][..e - a])
  {
    hide Strip, Spaces;
    var part := raw[a..b][..e - a];
    StripWithin(raw[..a], part, "");
    assert raw[..e] == raw[..a] + part + "";
  }

  lemma StripAfter(raw: string, a: nat, b: nat, e: nat)
    requires a <= e <= b <= |raw| && Spaces(raw[b..]) && Spaces("")
    ensures Strip(raw[e..]) == Strip(raw[a..b][e - a..])
  {
    hide Strip, Spaces;
    var part := raw[a..b][e - a..];
    StripWithin("", part, raw[b..]);
    assert raw[e..] == "" + part + raw[b..];
  }

  /** A line that is neither blank nor a header, stripped. */
  lemma OtherCut(raw: string, a: nat, b: nat)
    requires Trims(raw, a, b) && !IsBlankLine(raw) && forall i: nat, j: nat :: !IsHeaderLine(raw, i, j)
    ensures var line := raw[a..b];
      && line != "" && line[0] != ';' && line[0] != '#' && !(line[0] == '[' && IndexOf(line, ']') < |line|)
  {
    BlankIff(raw, a, b);
    HeaderIff(raw, a, b, a, a + IndexOf(raw[a..b], ']'));
    hide IndexOf, Trims, IsHeaderLine, IsBlankLine;
    assert raw[a..b] != "" ==> raw[a..b][0] == raw[a];
  }

  lemma EntryIsLine(p: Parser, raw: string, key: string, value: string)
    requires Means(raw, Entry(key, value))
    ensures ParseLine(p, raw) == Effect(p, Entry(key, value))
  {
    var e: nat, t :| FirstAt(raw, 0, e, '=') && IsTrim(raw[..e], t) && IsLower(t, key) && IsTrim(raw[e + 1..], value);
    var a, b := StripCuts(raw);
    OtherCut(raw, a, b);
    EntryCut(raw, a, b, e);
    IsTrimIff(raw[..e], t);
    IsTrimIff(raw[e + 1..], value);
    IsLowerIff(t, key);
    hide Strip, Lower, Trims, IsTrim, IsLower, IndexOf, IsHeaderLine, EntryKey, EntryValue;
    EntryParses(p, raw, raw[a..b], key, value);
  }

  lemma EntryParses(p: Parser, raw: string, line: string, key: string, value: string)
    requires line == Strip(raw) && line != "" && line[0] != ';' && line[0] != '#'
    requires !(line[0] == '[' && IndexOf(line, ']') < |line|) && IndexOf(line, '=') < |line|
    requires EntryKey(line) == key && EntryValue(line) == value
    ensures ParseLine(p, raw) == Effect(p, Entry(key, value))
  {
    hide Strip, Lower, IndexOf, EntryKey, EntryValue, PutEntry;
  }

  /** The parser takes each line as what it is. */
  lemma LineActs(p: Parser, raw: string, line: Line)
    requires Means(raw, line)
    ensures ParseLine(p, raw) == Effect(p, line)
  {
    if line.Section? {
      SectionLine(p, raw, line.name);
    } else if line.Entry? {
      EntryIsLine(p, raw, line.key, line.value);
    } else {
      var a, b := StripCuts(raw);
      BlankIff(raw, a, b);
      HeaderIff(raw, a, b, a, a + IndexOf(raw[a..b], ']'));
      FirstWithin(raw, a, b, a + IndexOf(raw[a..b], '='), '=');
      hide Strip, Trims, IndexOf, IsHeaderLine;
    }
  }

  /** And each line is something. */
  lemma LineIsSomething(raw: string) returns (line: Line)
    ensures Means(raw, line)
  {
    if IsBlankLine(raw) { return Blank; }
    if i: nat, j: nat :| IsHeaderLine(raw, i, j) {
      var t := Strip(raw[i + 1..j]);
      IsTrimIff(raw[i + 1..j], t);
      IsLowerIff(t, Lower(t));
      return Section(Lower(t));
    }
    if e: nat :| FirstAt(raw, 0, e, '=') {
      var t := Strip(raw[..e]);
      IsTrimIff(raw[..e], t);
      IsLowerIff(t, Lower(t));
      IsTrimIff(raw[e + 1..], Strip(raw[e + 1..]));
      return Entry(Lower(t), Strip(raw[e + 1..]));
    }
    return Noise;
  }

  // ---- Files ----

  /** The section of the last header among the first n lines. */
  function SectionAt(lines: seq<Line>, n: nat): Option<string>
    requires n <= |lines|
  {
    if n == 0 then None else if lines[n - 1].Section? then Some(lines[n - 1].name) else SectionAt(lines, n - 1)
  }

  /** Line m gives the value of a key in a section. */
  predicate GivesAt(lines: seq<Line>, m: nat, s: string, k: string, v: string)
    requires m < |lines|
  {
    lines[m] == Entry(k, v) && SectionAt(lines, m) == Some(s)
  }

  /** Among the first n lines there is one that gives it, and none after that one gives
      it another value. */
  ghost predicate LastGives(lines: seq<Line>, n: nat, s: string, k: string, v: string)
    requires n <= |lines|
  {
    exists m: nat ::
      m < n && GivesAt(lines, m, s, k, v) && forall l: nat, w :: m < l < n ==> !GivesAt(lines, l, s, k, w)
  }

  ghost predicate Opened(lines: seq<Line>, n: nat, s: string)
    requires n <= |lines|
  {
    exists m: nat :: m < n && lines[m] == Section(s)
  }

  lemma OneMoreLine(lines: seq<Line>, n: nat, s: string, k: string, v: string)
    requires n < |lines|
    ensures LastGives(lines, n + 1, s, k, v) <==>
      GivesAt(lines, n, s, k, v) || (LastGives(lines, n, s, k, v) && forall w :: !GivesAt(lines, n, s, k, w))
    ensures Opened(lines, n + 1, s) <==> lines[n] == Section(s) || Opened(lines, n, s)
  {
    hide GivesAt;
  }

  /** The parser's state after n lines, in terms of the lines. */
  ghost predicate Follows(p: Parser, lines: seq<Line>, n: nat)
    requires n <= |lines|
  {
    && p.current == SectionAt(lines, n)
    && (p.current.Some? ==> Has(p.result, p.current.value))
    && (forall s :: Has(p.result, s) <==> Opened(lines, n, s))
    && forall s, k, v :: Lookup(p.result, s, k) == Some(v) <==> LastGives(lines, n, s, k, v)
  }

  lemma OpenedReads(ini: IniData, name: string, s: string, k: string)
    requires !Has(ini, name)
    ensures Has(Put(ini, name, []), s) <==> s == name || Has(ini, s)
    ensures Lookup(Put(ini, name, []), s, k) == Lookup(ini, s, k)
  {
    GetPut(ini, name, [], s);
  }

  lemma EntryReads(p: Parser, key: string, value: string, s: string, k: string)
    requires p.current.Some? && Has(p.result, p.current.value)
    ensures Has(PutEntry(p.result, p.current.value, key, value), s) <==> Has(p.result, s)
    ensures Lookup(PutEntry(p.result, p.current.value, key, value), s, k)
      == if s == p.current.value && k == key then Some(value) else Lookup(p.result, s, k)
  {
    SetReads(p.result, p.current.value, key, value, s, k);
    GetPut(p.result, p.current.value, Put(Get(p.result, p.current.value), key, value), s);
  }

  /** What a line does to a lookup and to the sections. */
  lemma EffectReads(p: Parser, lines: seq<Line>, n: nat, s: string, k: string)
    requires n < |lines| && Follows(p, lines, n)
    ensures var q := Effect(p, lines[n]);
      && (Has(q.result, s) <==> lines[n] == Section(s) || Has(p.result, s))
      && (q.current.Some? ==> Has(q.result, q.current.value))
      && Lookup(q.result, s, k)
         == if lines[n].Entry? && SectionAt(lines, n) == Some(s) && lines[n].key == k then Some(lines[n].value)
            else Lookup(p.result, s, k)
  {
    hide Lookup, Put;
    match lines[n]
    case Section(name) =>
      if !Has(p.result, name) {
        OpenedReads(p.result, name, s, k);
        OpenedReads(p.result, name, name, k);
      }
    case Entry(key, value) =>
      if p.current.Some? {
        EntryReads(p, key, value, s, k);
        EntryReads(p, key, value, p.current.value, k);
      }
    case _ =>
  }

  lemma EffectFollows(p: Parser, lines: seq<Line>, n: nat)
    requires n < |lines| && Follows(p, lines, n)
    ensures Follows(Effect(p, lines[n]), lines, n + 1)
  {
    var q := Effect(p, lines[n]);
    forall s ensures Has(q.result, s) <==> Opened(lines, n + 1, s) {
      EffectReads(p, lines, n, s, "");
      OneMoreLine(lines, n, s, "", "");
    }
    forall s, k, v ensures Lookup(q.result, s, k) == Some(v) <==> LastGives(lines, n + 1, s, k, v) {
      EffectReads(p, lines, n, s, k);
      OneMoreLine(lines, n, s, k, v);
      hide LastGives, Lookup, Effect, Opened;
      assert GivesAt(lines, n, s, k, v) <==>
        lines[n].Entry? && SectionAt(lines, n) == Some(s) && lines[n].key == k && lines[n].value == v;
      if lines[n].Entry? && SectionAt(lines, n) == Some(s) && lines[n].key == k {
        assert GivesAt(lines, n, s, k, lines[n].value);
      }
    }
    EffectReads(p, lines, n, "", "");
    hide LastGives, Lookup, Opened;
  }

  lemma {:induction false} ParseMore(p: Parser, lines: seq<string>, line: string)
    ensures ParseLines(p, lines + [line]) == ParseLine(ParseLines(p, lines), line)
    decreases |lines|
  {
    if lines == [] {
      assert lines + [line] == [line] && [line][1..] == [];
    } else {
      assert (lines + [line])[1..] == lines[1..] + [line];
      ParseMore(ParseLine(p, lines[0]), lines[1..], line);
    }
  }

  ghost predicate MeanAll(raw: seq<string>, lines: seq<Line>) {
    |raw| == |lines| && forall n :: 0 <= n < |raw| ==> Means(raw[n], lines[n])
  }

  lemma {:induction false} FileFollows(raw: seq<string>, lines: seq<Line>, n: nat)
    requires MeanAll(raw, lines) && n <= |raw|
    ensures Follows(ParseLines(Parser([], None), raw[..n]), lines, n)
    decreases n
  {
    if n > 0 {
      FileFollows(raw, lines, n - 1);
      var p := ParseLines(Parser([], None), raw[..n - 1]);
      hide Follows, Means, ParseLines, ParseLine, Effect;
      assert raw[..n] == raw[..n - 1] + [raw[n - 1]];
      ParseMore(Parser([], None), raw[..n - 1], raw[n - 1]);
      LineActs(p, raw[n - 1], lines[n - 1]);
      EffectFollows(p, lines, n - 1);
    }
  }

  /** A file defines exactly the sections it has headers for and, in them, exactly the
      keys it has entries for, each with the value of its last one. */
  lemma FileMeans(text: string, lines: seq<Line>, s: string, k: string, v: string)
    requires MeanAll(SplitLines(text), lines)
    ensures Has(Parse(text), s) <==> Opened(lines, |lines|, s)
    ensures Lookup(Parse(text), s, k) == Some(v) <==> LastGives(lines, |lines|, s, k, v)
  {
    var raw := SplitLines(text);
    FileFollows(raw, lines, |raw|);
    assert raw[..|raw|] == raw;
  }

  /** Reading a profile: the value of the last entry for that key in that section,
      whatever the case of the two names, or else the default. */
  lemma ReadMeans(text: string, lines: seq<Line>, app: string, key: string, s: string, k: string, default: string)
    requires MeanAll(SplitLines(text), lines) && IsLower(app, s) && IsLower(key, k)
    ensures forall v :: LastGives(lines, |lines|, s, k, v) ==> Read(Parse(text), Some(app), Some(key), default) == v
    ensures (forall v :: !LastGives(lines, |lines|, s, k, v)) ==>
      Read(Parse(text), Some(app), Some(key), default) == default
  {
    IsLowerIff(app, s);
    IsLowerIff(key, k);
    forall v ensures Lookup(Parse(text), s, k) == Some(v) <==> LastGives(lines, |lines|, s, k, v) {
      FileMeans(text, lines, s, k, v);
    }
    hide LastGives, Parse, Lookup, MeanAll;
  }

  // ---- Text and lines ----

  /** A line break: CR LF, or one of these characters alone. */
  predicate IsLineBreak(br: string, rest: string) {
    || br == "\r\n"
    || (|br| == 1
        && var n := br[0] as int;
           (10 <= n <= 13 || 0x1c <= n <= 0x1e || n == 0x85) && (n == 13 ==> rest == "" || rest[0] != '\n'))
  }

  predicate NoBreak(s: string) {
    forall k :: 0 <= k < |s| ==> var n := s[k] as int; !(10 <= n <= 13 || 0x1c <= n <= 0x1e || n == 0x85)
  }

  /** A text is its lines, each ended by a break, but for the last, which need not be. */
  lemma LinesAre(line: string, br: string, rest: string)
    requires NoBreak(line) && IsLineBreak(br, rest)
    ensures SplitLines(line + (br + rest)) == [line] + SplitLines(rest)
    ensures SplitLines("") == []
    ensures line != "" ==> SplitLines(line) == [line]
  {
    var s := line + (br + rest);
    LineEndIs(line, br + rest);
    assert s[..|line|] == line && s[|line|] == br[0] && s[|line| + |br|..] == rest;
    if |br| == 2 {
      assert s[|line| + 1] == '\n';
    } else {
      assert |line| + 1 < |s| ==> s[|line| + 1] == rest[0];
    }
    LineEndIs(line, "");
    assert line + "" == line;
  }

  /** A section as it is written: its header and its entries, each on its line. */
  function Written(name: string, keys: Keys): string {
    "[" + name + "]\n" + WrittenEntries(keys)
  }

  function WrittenEntries(keys: Keys): string {
    if keys == [] then "" else keys[0].key + "=" + keys[0].value + "\n" + WrittenEntries(keys[1..])
  }

  lemma {:induction false} JoinEntries(keys: Keys, rest: seq<string>)
    requires rest != []
    ensures Join(EntryLines(keys) + rest) == WrittenEntries(keys) + Join(rest)
    decreases |keys|
  {
    if keys == [] {
      assert EntryLines(keys) + rest == rest;
    } else {
      var line := keys[0].key + "=" + keys[0].value;
      var more := EntryLines(keys[1..]) + rest;
      assert EntryLines(keys) + rest == [line] + more;
      assert ([line] + more)[1..] == more;
      JoinEntries(keys[1..], rest);
      var others := WrittenEntries(keys[1..]);
      assert line + "\n" + (others + Join(rest)) == line + "\n" + others + Join(rest);
    }
  }

  lemma JoinSection(name: string, keys: Keys, rest: seq<string>)
    requires rest != []
    ensures Join([Header(name)] + (EntryLines(keys) + rest)) == Written(name, keys) + Join(rest)
  {
    JoinEntries(keys, rest);
    JoinMore(Header(name), EntryLines(keys) + rest);
    hide EntryLines, WrittenEntries, Join;
    Associate("[" + name + "]\n", WrittenEntries(keys), Join(rest));
    assert Header(name) + "\n" == "[" + name + "]\n";
  }

  lemma JoinMore(line: string, more: seq<string>)
    requires more != []
    ensures Join([line] + more) == line + "\n" + Join(more)
  {
    assert ([line] + more)[1..] == more;
  }

  lemma Associate(a: string, b: string, c: string)
    ensures a + (b + c) == a + b + c
  {
  }

  /** A file is its sections as written, with an empty line between. */
  lemma FileIsWritten(ini: IniData)
    ensures ini == [] ==> Serialise(ini) == ""
    ensures |ini| == 1 ==> Serialise(ini) == Written(ini[0].key, ini[0].value)
    ensures |ini| > 1 ==> Serialise(ini) == Written(ini[0].key, ini[0].value) + ("\n" + Serialise(ini[1..]))
  {
    if ini != [] {
      var rest := [""] + Parts(ini[1..]);
      JoinSection(ini[0].key, ini[0].value, rest);
      assert rest[1..] == Parts(ini[1..]);
      assert |ini| > 1 ==> Parts(ini[1..]) != [];
      assert |ini| == 1 ==> ini[1..] == [];
      hide Written, EntryLines, Header;
      assert Join(rest) == if |ini| == 1 then "" else "\n" + Serialise(ini[1..]);
    }
  }
}
