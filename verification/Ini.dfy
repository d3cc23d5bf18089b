/** parse_ini, _serialise_ini and the profile readers and writers on values: what each
    line does, which data survive being written and read again, and what is lost. */
module Ini {
  import opened IniText
  import opened Options

  // ---- Insertion-ordered dictionaries ----

  datatype Pair<V> = Pair(key: string, value: V)
  type Dict<V> = seq<Pair<V>>
  type Keys = Dict<string>
  type IniData = Dict<Keys>

  function Find<V>(d: Dict<V>, key: string): (i: nat)
    ensures i <= |d| && (forall k :: 0 <= k < i ==> d[k].key != key) && (i < |d| ==> d[i].key == key)
  {
    if d == [] then 0 else if d[0].key == key then 0 else 1 + Find(d[1..], key)
  }

  predicate Has<V>(d: Dict<V>, key: string) {
    Find(d, key) < |d|
  }

  function Get<V>(d: Dict<V>, key: string): V
    requires Has(d, key)
  {
    d[Find(d, key)].value
  }

  /** d[key] = value: in place if the key is there, at the end if not. */
  function Put<V>(d: Dict<V>, key: string, value: V): (r: Dict<V>)
    ensures |r| == if Has(d, key) then |d| else |d| + 1
    ensures forall k :: 0 <= k < |d| ==> r[k] == if k == Find(d, key) then Pair(key, value) else d[k]
    ensures !Has(d, key) ==> r[|d|] == Pair(key, value)
  {
    if Has(d, key) then d[Find(d, key) := Pair(key, value)] else d + [Pair(key, value)]
  }

  /** d.pop(key, None) */
  function Drop<V>(d: Dict<V>, key: string): Dict<V> {
    if d == [] then [] else if d[0].key == key then d[1..] else [d[0]] + Drop(d[1..], key)
  }

  predicate Unique<V>(d: Dict<V>) {
    forall j, k :: 0 <= j < k < |d| ==> d[j].key != d[k].key
  }

  // ---- Parsing ----

  datatype Parser = Parser(result: IniData, current: Option<string>)

  /** What one raw line does. */
  function ParseLine(p: Parser, raw: string): Parser {
    var line := Strip(raw);
    if line == "" || line[0] == ';' || line[0] == '#' then p
    else if line[0] == '[' && IndexOf(line, ']') < |line| then
      var name := SectionName(line);
      Parser(if Has(p.result, name) then p.result else Put(p.result, name, []), Some(name))
    else if IndexOf(line, '=') < |line| && p.current.Some? then
      var i := IndexOf(line, '=');
      p.(result := PutEntry(p.result, p.current.value, EntryKey(line), EntryValue(line)))
    else p
  }

  function SectionName(line: string): string
    requires line != "" && line[0] == '[' && IndexOf(line, ']') < |line|
  {
    Lower(Strip(line[1..IndexOf(line, ']')]))
  }

  function EntryKey(line: string): string
    requires IndexOf(line, '=') < |line|
  {
    Lower(Strip(line[..IndexOf(line, '=')]))
  }

  function EntryValue(line: string): string
    requires IndexOf(line, '=') < |line|
  {
    Strip(line[IndexOf(line, '=') + 1..])
  }

  /** result[section][key] = value */
  function PutEntry(ini: IniData, section: string, key: string, value: string): IniData {
    if Has(ini, section) then Put(ini, section, Put(Get(ini, section), key, value)) else ini
  }

  function ParseLines(p: Parser, lines: seq<string>): Parser
    decreases |lines|
  {
    if lines == [] then p else ParseLines(ParseLine(p, lines[0]), lines[1..])
  }

  function Parse(text: string): IniData {
    ParseLines(Parser([], None), SplitLines(text)).result
  }

  // ---- Serialising ----

  function EntryLines(keys: Keys): seq<string> {
    if keys == [] then [] else [keys[0].key + "=" + keys[0].value] + EntryLines(keys[1..])
  }

  function Header(name: string): string {
    "[" + name + "]"
  }

  /** The parts, one to a line; every section ends with an empty one. */
  function Parts(ini: IniData): seq<string> {
    if ini == [] then [] else [Header(ini[0].key)] + (EntryLines(ini[0].value) + ([""] + Parts(ini[1..])))
  }

  /** "\n".join(parts) */
  function Join(parts: seq<string>): string {
    if parts == [] then "" else if |parts| == 1 then parts[0] else parts[0] + "\n" + Join(parts[1..])
  }

  function Serialise(ini: IniData): string {
    Join(Parts(ini))
  }

  // ---- Which data survive ----

  /** A section name as parsing leaves it. */
  predicate CanonicalName(name: string) {
    OneLine(name) && Trimmed(name) && Lower(name) == name && HasNo(name, ']')
  }

  /** A key and its value as parsing leaves them: trimmed, on one line, the key in
      lower case and without '=', and the written line neither a comment nor a
      section header. */
  predicate CanonicalEntry(key: string, value: string) {
    && OneLine(key) && Trimmed(key) && Lower(key) == key && HasNo(key, '=')
    && OneLine(value) && Trimmed(value)
    && (key != "" ==> key[0] != ';' && key[0] != '#' && (key[0] == '[' ==> HasNo(key, ']') && HasNo(value, ']')))
  }

  predicate CanonicalKeys(keys: Keys) {
    forall k :: 0 <= k < |keys| ==> CanonicalEntry(keys[k].key, keys[k].value)
  }

  predicate Canonical(ini: IniData) {
    forall k :: 0 <= k < |ini| ==> CanonicalName(ini[k].key) && CanonicalKeys(ini[k].value)
  }

  /** Keys are unique, as in any dictionary. */
  predicate WellFormed(ini: IniData) {
    Unique(ini) && forall k :: 0 <= k < |ini| ==> Unique(ini[k].value)
  }

  // ---- Parsing always yields canonical data ----

  lemma StripClean(s: string)
    requires OneLine(s)
    ensures OneLine(Strip(s)) && Trimmed(Strip(s))
    ensures HasNo(s, ']') ==> HasNo(Strip(s), ']')
    ensures HasNo(s, '=') ==> HasNo(Strip(s), '=')
  {
    StripTrimmed(s);
    StripPart(s);
    var a, b :| 0 <= a <= b <= |s| && Strip(s) == s[a..b];
    assert forall k :: 0 <= k < b - a ==> s[a..b][k] == s[a + k];
  }

  lemma LowerClean(t: string)
    requires OneLine(t) && Trimmed(t)
    ensures OneLine(Lower(t)) && Trimmed(Lower(t)) && Lower(Lower(t)) == Lower(t)
    ensures HasNo(t, ']') ==> HasNo(Lower(t), ']')
    ensures HasNo(t, '=') ==> HasNo(Lower(t), '=')
  {
    LowerKeepsTrimmed(t);
    LowerTwice(t);
    forall k | 0 <= k < |t|
      ensures !IsBreak(Lower(t)[k]) && (Lower(t)[k] == ']' <==> t[k] == ']') && (Lower(t)[k] == '=' <==> t[k] == '=')
    {
      LowerCharFacts(t[k]);
    }
  }

  /** Stripping and lowering a piece of a line. */
  lemma CleanPiece(s: string)
    requires OneLine(s)
    ensures OneLine(Strip(s)) && Trimmed(Strip(s))
    ensures OneLine(Lower(Strip(s))) && Trimmed(Lower(Strip(s))) && Lower(Lower(Strip(s))) == Lower(Strip(s))
    ensures HasNo(s, ']') ==> HasNo(Strip(s), ']') && HasNo(Lower(Strip(s)), ']')
    ensures HasNo(s, '=') ==> HasNo(Lower(Strip(s)), '=')
  {
    StripClean(s);
    LowerClean(Strip(s));
  }

  lemma NameIsCanonical(line: string)
    requires OneLine(line) && line != "" && line[0] == '[' && IndexOf(line, ']') < |line|
    ensures CanonicalName(SectionName(line))
  {
    CleanPiece(line[1..IndexOf(line, ']')]);
  }

  /** The front of a key is the lowered front of the line. */
  lemma KeyFront(left: string)
    requires left != "" && !IsSpace(left[0])
    ensures var key := Lower(Strip(left));
      && key != ""
      && (key[0] == ';' <==> left[0] == ';')
      && (key[0] == '#' <==> left[0] == '#')
      && (key[0] == '[' <==> left[0] == '[')
  {
    StripFront(left);
    LowerCharFacts(left[0]);
  }

  lemma KeyIsCanonical(left: string, right: string)
    requires OneLine(left) && OneLine(right) && HasNo(left, '=')
    requires left != "" ==> !IsSpace(left[0]) && left[0] != ';' && left[0] != '#'
    requires left != "" && left[0] == '[' ==> HasNo(left, ']') && HasNo(right, ']')
    ensures CanonicalEntry(Lower(Strip(left)), Strip(right))
  {
    CleanPiece(left);
    CleanPiece(right);
    if left != "" {
      KeyFront(left);
    } else {
      assert Strip(left) == "";
    }
  }

  lemma EntryIsCanonical(line: string)
    requires OneLine(line) && Trimmed(line) && line != "" && line[0] != ';' && line[0] != '#'
    requires !(line[0] == '[' && IndexOf(line, ']') < |line|) && IndexOf(line, '=') < |line|
    ensures CanonicalEntry(EntryKey(line), EntryValue(line))
  {
    var i := IndexOf(line, '=');
    var left, right := line[..i], line[i + 1..];
    assert forall k :: 0 <= k < |left| ==> left[k] == line[k];
    assert forall k :: 0 <= k < |right| ==> right[k] == line[i + 1 + k];
    KeyIsCanonical(left, right);
  }

  lemma PutKeeps(ini: IniData, name: string, keys: Keys)
    requires WellFormed(ini) && Canonical(ini) && CanonicalName(name) && CanonicalKeys(keys) && Unique(keys)
    ensures WellFormed(Put(ini, name, keys)) && Canonical(Put(ini, name, keys)) && Has(Put(ini, name, keys), name)
    ensures Get(Put(ini, name, keys), name) == keys
  {
    PutUnique(ini, name, keys);
    GetPut(ini, name, keys, name);
  }

  lemma PutUnique<V>(d: Dict<V>, key: string, value: V)
    requires Unique(d)
    ensures Unique(Put(d, key, value))
  {
  }

  /** Reading after an assignment. */
  lemma GetPut<V>(d: Dict<V>, key: string, value: V, other: string)
    ensures Has(Put(d, key, value), other) <==> other == key || Has(d, other)
    ensures other == key ==> Get(Put(d, key, value), other) == value
    ensures other != key && Has(d, other) ==> Get(Put(d, key, value), other) == Get(d, other)
  {
    var r := Put(d, key, value);
    var i := Find(d, other);
    if other == key {
      assert r[Find(d, key)].key == key;
      assert forall k :: 0 <= k < Find(d, key) ==> r[k].key != key;
    } else if i < |d| {
      assert r[i] == d[i];
      assert forall k :: 0 <= k < i ==> r[k].key != other;
    } else {
      assert forall k :: 0 <= k < |r| ==> r[k].key != other;
    }
  }

  predicate GoodParser(p: Parser) {
    && WellFormed(p.result) && Canonical(p.result)
    && (p.current.Some? ==> Has(p.result, p.current.value) && CanonicalName(p.current.value))
  }

  lemma LineKeepsGood(p: Parser, raw: string)
    requires GoodParser(p) && OneLine(raw)
    ensures GoodParser(ParseLine(p, raw))
  {
    var line := Strip(raw);
    StripClean(raw);
    if line == "" || line[0] == ';' || line[0] == '#' {
    } else if line[0] == '[' && IndexOf(line, ']') < |line| {
      NameIsCanonical(line);
      if !Has(p.result, SectionName(line)) {
        PutKeeps(p.result, SectionName(line), []);
      }
    } else if IndexOf(line, '=') < |line| && p.current.Some? {
      EntryIsCanonical(line);
      var keys := Get(p.result, p.current.value);
      PutUnique(keys, EntryKey(line), EntryValue(line));
      PutKeeps(p.result, p.current.value, Put(keys, EntryKey(line), EntryValue(line)));
    }
  }

  lemma {:induction false} LinesKeepGood(p: Parser, lines: seq<string>)
    requires GoodParser(p) && forall k :: 0 <= k < |lines| ==> OneLine(lines[k])
    ensures GoodParser(ParseLines(p, lines))
    decreases |lines|
  {
    if lines != [] {
      LineKeepsGood(p, lines[0]);
      LinesKeepGood(ParseLine(p, lines[0]), lines[1..]);
    }
  }

  /** Whatever the text, parsing it yields canonical data with unique keys. */
  lemma ParseIsCanonical(text: string)
    ensures WellFormed(Parse(text)) && Canonical(Parse(text))
  {
    LinesAreOneLine(text);
    LinesKeepGood(Parser([], None), SplitLines(text));
  }

  // ---- Serialised canonical data parse back to themselves ----

  /** The closing bracket of a header, and the name before it. */
  lemma HeaderShape(name: string)
    requires HasNo(name, ']')
    ensures IndexOf(Header(name), ']') == |name| + 1 && Header(name)[1..|name| + 1] == name
  {
    var line := Header(name);
    assert line[|name| + 1] == ']';
    forall k | 0 <= k <= |name| ensures line[k] != ']' {
      if k > 0 { assert line[k] == name[k - 1]; }
    }
  }

  /** A line whose ends are not spaces. */
  lemma KeepsEnds(line: string)
    requires line != "" && !IsSpace(line[0]) && !IsSpace(line[|line| - 1])
    ensures Strip(line) == line
  {
    TrimmedStrip(line);
  }

  lemma HeaderName(line: string, name: string)
    requires line != "" && line[0] == '[' && IndexOf(line, ']') == |name| + 1 < |line| && line[1..|name| + 1] == name
    requires Trimmed(name) && Lower(name) == name
    ensures SectionName(line) == name
  {
    TrimmedStrip(name);
  }

  lemma HeaderLine(p: Parser, name: string)
    requires CanonicalName(name)
    ensures ParseLine(p, Header(name))
      == Parser(if Has(p.result, name) then p.result else Put(p.result, name, []), Some(name))
  {
    HeaderShape(name);
    HeaderEnds(p, Header(name), name);
  }

  lemma HeaderEnds(p: Parser, line: string, name: string)
    requires CanonicalName(name) && |line| == |name| + 2 && line[0] == '[' && line[|name| + 1] == ']'
    requires IndexOf(line, ']') == |name| + 1 && line[1..|name| + 1] == name
    ensures ParseLine(p, line) == Parser(if Has(p.result, name) then p.result else Put(p.result, name, []), Some(name))
  {
    KeepsEnds(line);
    HeaderName(line, name);
  }

  lemma EntryPieces(line: string, key: string, value: string)
    requires IndexOf(line, '=') == |key| < |line| && line[..|key|] == key && line[|key| + 1..] == value
    requires Trimmed(key) && Lower(key) == key && Trimmed(value)
    ensures EntryKey(line) == key && EntryValue(line) == value
  {
    TrimmedStrip(key);
    TrimmedStrip(value);
    hide IndexOf, Strip, Lower, Trimmed;
  }

  /** A written entry line has its key before the first '=' and no space at
      either end. */
  lemma EntryShape(key: string, value: string)
    requires CanonicalEntry(key, value)
    ensures var line := key + "=" + value;
      && IndexOf(line, '=') == |key| && line[..|key|] == key && line[|key| + 1..] == value
      && !IsSpace(line[0]) && !IsSpace(line[|line| - 1])
  {
    var line := key + "=" + value;
    assert line[|key|] == '=';
    assert forall k :: 0 <= k < |key| ==> line[k] == key[k];
    assert value != "" ==> line[|line| - 1] == value[|value| - 1];
  }

  /** It is neither a comment nor a header. */
  lemma EntryFront(key: string, value: string)
    requires CanonicalEntry(key, value)
    ensures var line := key + "=" + value;
      && line[0] != ';' && line[0] != '#' && (line[0] == '[' ==> IndexOf(line, ']') == |line|)
  {
    var line := key + "=" + value;
    if key != "" { assert line[0] == key[0]; }
    if line[0] == '[' {
      forall k | 0 <= k < |line| ensures line[k] != ']' {
        assert line[k] == if k < |key| then key[k] else if k == |key| then '=' else value[k - |key| - 1];
      }
    }
  }

  lemma EntryLine(p: Parser, line: string, key: string, value: string)
    requires line == key + "=" + value && CanonicalEntry(key, value) && p.current.Some?
    ensures ParseLine(p, line) == p.(result := PutEntry(p.result, p.current.value, key, value))
  {
    EntryShape(key, value);
    EntryFront(key, value);
    KeepsEnds(line);
    EntryPieces(line, key, value);
  }

  lemma MoveOver<V>(done: Dict<V>, rest: Dict<V>)
    requires rest != []
    ensures done + [rest[0]] + rest[1..] == done + rest
  {
  }

  lemma ParseCons(p: Parser, q: Parser, line: string, lines: seq<string>)
    requires ParseLine(p, line) == q
    ensures ParseLines(p, [line] + lines) == ParseLines(q, lines)
  {
    assert ([line] + lines)[1..] == lines;
  }

  /** The entries of a section, parsed into the section at the end of the result. */
  lemma {:induction false} EntriesParse(done: IniData, name: string, before: Keys, keys: Keys, rest: seq<string>)
    requires !Has(done, name) && CanonicalKeys(keys) && Unique(before + keys)
    ensures ParseLines(Parser(done + [Pair(name, before)], Some(name)), EntryLines(keys) + rest)
      == ParseLines(Parser(done + [Pair(name, before + keys)], Some(name)), rest)
    decreases |keys|
  {
    if keys == [] {
      assert before + keys == before && EntryLines(keys) + rest == rest;
    } else {
      var line, lines := keys[0].key + "=" + keys[0].value, EntryLines(keys[1..]) + rest;
      var p := Parser(done + [Pair(name, before)], Some(name));
      var q := Parser(done + [Pair(name, before + [keys[0]])], Some(name));
      FirstEntry(done, name, before, keys, line);
      ParseCons(p, q, line, lines);
      assert [line] + lines == EntryLines(keys) + rest;
      MoveOver(before, keys);
      EntriesParse(done, name, before + [keys[0]], keys[1..], rest);
    }
  }

  lemma FirstEntry(done: IniData, name: string, before: Keys, keys: Keys, line: string)
    requires !Has(done, name) && keys != [] && CanonicalKeys(keys) && Unique(before + keys)
    requires line == keys[0].key + "=" + keys[0].value
    ensures ParseLine(Parser(done + [Pair(name, before)], Some(name)), line)
      == Parser(done + [Pair(name, before + [keys[0]])], Some(name))
  {
    var p := Parser(done + [Pair(name, before)], Some(name));
    assert CanonicalEntry(keys[0].key, keys[0].value);
    EntryLine(p, line, keys[0].key, keys[0].value);
    forall k | 0 <= k < |before| ensures before[k].key != keys[0].key {
      assert (before + keys)[k] == before[k] && (before + keys)[|before|] == keys[0];
    }
    NewEntry(done, name, before, keys[0].key, keys[0].value);
  }

  lemma NewEntry(done: IniData, name: string, before: Keys, key: string, value: string)
    requires !Has(done, name) && forall k :: 0 <= k < |before| ==> before[k].key != key
    ensures PutEntry(done + [Pair(name, before)], name, key, value) == done + [Pair(name, before + [Pair(key, value)])]
  {
    var ini := done + [Pair(name, before)];
    LastIs(done, Pair(name, before));
    assert !Has(before, key);
  }

  lemma LastIs<V>(d: Dict<V>, last: Pair<V>)
    requires !Has(d, last.key)
    ensures Find(d + [last], last.key) == |d|
  {
    var r := d + [last];
    assert forall k :: 0 <= k < |d| ==> r[k].key != last.key;
    assert r[|d|].key == last.key;
  }

  /** The header of the next section opens it, empty, at the end of the result. */
  lemma OpenSection(done: IniData, current: Option<string>, ini: IniData)
    requires ini != [] && Canonical(ini) && WellFormed(done + ini)
    ensures !Has(done, ini[0].key) && Unique(ini[0].value) && CanonicalKeys(ini[0].value)
    ensures ParseLine(Parser(done, current), Header(ini[0].key))
      == Parser(done + [Pair(ini[0].key, [])], Some(ini[0].key))
  {
    var name := ini[0].key;
    assert (done + ini)[|done|] == ini[0];
    forall k | 0 <= k < |done| ensures done[k].key != name {
      assert (done + ini)[k] == done[k];
    }
    HeaderLine(Parser(done, current), name);
  }

  lemma {:induction false} SectionsParse(done: IniData, current: Option<string>, ini: IniData)
    requires Canonical(ini) && WellFormed(done + ini)
    ensures ParseLines(Parser(done, current), Parts(ini)).result == done + ini
    decreases |ini|
  {
    if ini == [] {
      assert done + ini == done;
    } else {
      SectionStep(done, current, ini);
      MoveOver(done, ini);
      SectionsParse(done + [ini[0]], Some(ini[0].key), ini[1..]);
    }
  }

  /** The lines of one section append that section to the result. */
  lemma SectionStep(done: IniData, current: Option<string>, ini: IniData)
    requires ini != [] && Canonical(ini) && WellFormed(done + ini)
    ensures ParseLines(Parser(done, current), Parts(ini))
      == ParseLines(Parser(done + [ini[0]], Some(ini[0].key)), Parts(ini[1..]))
  {
    OpenSection(done, current, ini);
    SectionBody(done, current, ini[0].key, ini[0].value, Parts(ini), Parts(ini[1..]));
    assert Pair(ini[0].key, ini[0].value) == ini[0];
  }

  lemma SectionBody(done: IniData, current: Option<string>, name: string, keys: Keys, lines: seq<string>,
                    rest: seq<string>)
    requires lines == [Header(name)] + (EntryLines(keys) + ([""] + rest))
    requires !Has(done, name) && Unique(keys) && CanonicalKeys(keys)
    requires ParseLine(Parser(done, current), Header(name)) == Parser(done + [Pair(name, [])], Some(name))
    ensures ParseLines(Parser(done, current), lines) == ParseLines(Parser(done + [Pair(name, keys)], Some(name)), rest)
  {
    assert [] + keys == keys;
    assert lines[0] == Header(name) && lines[1..] == EntryLines(keys) + ([""] + rest);
    EntriesParse(done, name, [], keys, [""] + rest);
    BlankLine(Parser(done + [Pair(name, keys)], Some(name)), [""] + rest);
    assert ([""] + rest)[1..] == rest;
  }

  lemma BlankLine(p: Parser, lines: seq<string>)
    requires lines != [] && lines[0] == ""
    ensures ParseLines(p, lines) == ParseLines(p, lines[1..])
  {
  }

  predicate AllOneLine(parts: seq<string>) {
    forall k :: 0 <= k < |parts| ==> OneLine(parts[k])
  }

  lemma {:induction false} EntryLinesOneLine(keys: Keys)
    requires CanonicalKeys(keys)
    ensures AllOneLine(EntryLines(keys))
  {
    if keys != [] {
      EntryLinesOneLine(keys[1..]);
      assert CanonicalEntry(keys[0].key, keys[0].value);
    }
  }

  lemma {:induction false} PartsOneLine(ini: IniData)
    requires Canonical(ini)
    ensures AllOneLine(Parts(ini)) && (ini != [] ==> |Parts(ini)| > 1 && Parts(ini)[|Parts(ini)| - 1] == "")
  {
    if ini != [] {
      EntryLinesOneLine(ini[0].value);
      PartsOneLine(ini[1..]);
      assert OneLine(Header(ini[0].key));
    }
  }

  /** Splitting what was joined gives the parts back, but for a final empty one. */
  lemma {:induction false} SplitJoin(parts: seq<string>)
    requires AllOneLine(parts) && |parts| > 0 && parts[|parts| - 1] == ""
    ensures SplitLines(Join(parts)) == parts[..|parts| - 1]
    decreases |parts|
  {
    if |parts| > 1 {
      hide SplitLines;
      var line, rest := parts[0], parts[1..];
      SplitJoin(rest);
      SplitOne(line, Join(rest));
      assert parts[..|parts| - 1] == [line] + rest[..|rest| - 1];
    }
  }

  lemma {:induction false} FinalBlank(p: Parser, lines: seq<string>)
    ensures ParseLines(p, lines + [""]) == ParseLines(p, lines)
    decreases |lines|
  {
    if lines == [] {
      assert lines + [""] == [""] && [""][1..] == [];
    } else {
      assert (lines + [""])[1..] == lines[1..] + [""];
      FinalBlank(ParseLine(p, lines[0]), lines[1..]);
    }
  }

  lemma SerialisedLines(ini: IniData)
    requires Canonical(ini) && ini != []
    ensures SplitLines(Serialise(ini)) + [""] == Parts(ini)
  {
    PartsOneLine(ini);
    SplitJoin(Parts(ini));
  }

  lemma CanonicalRoundTrip(ini: IniData)
    requires WellFormed(ini) && Canonical(ini)
    ensures Parse(Serialise(ini)) == ini
  {
    assert [] + ini == ini;
    SectionsParse([], None, ini);
    if ini != [] {
      SerialisedLines(ini);
      FinalBlank(Parser([], None), SplitLines(Serialise(ini)));
    }
  }

  /** Normal form: data survive writing and reading back exactly if every name,
      key and value is canonical. */
  lemma RoundTripIff(ini: IniData)
    requires WellFormed(ini)
    ensures Parse(Serialise(ini)) == ini <==> Canonical(ini)
  {
    if Canonical(ini) { CanonicalRoundTrip(ini); }
    ParseIsCanonical(Serialise(ini));
  }

  /** So rewriting a parsed file loses nothing, whatever text it came from. */
  lemma ParsedRoundTrip(text: string)
    ensures Parse(Serialise(Parse(text))) == Parse(text)
  {
    ParseIsCanonical(text);
    CanonicalRoundTrip(Parse(text));
  }

  // ---- Values with spaces around them ----

  /** An entry whose value would be canonical without the spaces at its ends. */
  predicate SpacedEntry(key: string, value: string) {
    OneLine(value) && CanonicalEntry(key, Strip(value))
  }

  function StrippedKeys(keys: Keys): (r: Keys)
    ensures |r| == |keys| && forall k :: 0 <= k < |keys| ==> r[k] == Pair(keys[k].key, Strip(keys[k].value))
  {
    seq(|keys|, k requires 0 <= k < |keys| => Pair(keys[k].key, Strip(keys[k].value)))
  }

  /** The data with the spaces around all values gone. */
  function Stripped(ini: IniData): (r: IniData)
    ensures |r| == |ini| && forall k :: 0 <= k < |ini| ==> r[k] == Pair(ini[k].key, StrippedKeys(ini[k].value))
  {
    seq(|ini|, k requires 0 <= k < |ini| => Pair(ini[k].key, StrippedKeys(ini[k].value)))
  }

  predicate Spaced(ini: IniData) {
    forall k :: 0 <= k < |ini| ==>
      CanonicalName(ini[k].key) && SpacedKeys(ini[k].value)
  }

  /** What Strip leaves has a bracket if the value has one. */
  lemma {:induction false} StripKeepsChar(s: string, c: char)
    requires !IsSpace(c) && HasNo(Strip(s), c)
    ensures HasNo(s, c)
  {
    LStripKeepsChar(s, c);
    RStripKeepsChar(LStrip(s), c);
  }

  lemma {:induction false} LStripKeepsChar(s: string, c: char)
    requires !IsSpace(c)
    ensures HasNo(LStrip(s), c) ==> HasNo(s, c)
    decreases |s|
  {
    if s != "" && IsSpace(s[0]) {
      LStripKeepsChar(s[1..], c);
      assert s == [s[0]] + s[1..];
    }
  }

  lemma {:induction false} RStripKeepsChar(s: string, c: char)
    requires !IsSpace(c)
    ensures HasNo(RStrip(s), c) ==> HasNo(s, c)
    decreases |s|
  {
    if s != "" && IsSpace(s[|s| - 1]) {
      RStripKeepsChar(s[..|s| - 1], c);
      assert s == s[..|s| - 1] + [s[|s| - 1]];
    }
  }

  /** The line of a spaced entry, stripped as parsing does. */
  lemma SpacedShape(key: string, value: string)
    requires SpacedEntry(key, value)
    ensures Strip(key + "=" + value) == key + "=" + RStrip(value)
    ensures var line := key + "=" + RStrip(value);
      && IndexOf(line, '=') == |key| && line[..|key|] == key && line[|key| + 1..] == RStrip(value)
      && line[0] != ';' && line[0] != '#' && (line[0] == '[' ==> IndexOf(line, ']') == |line|)
  {
    RStripAfter(key + "=", value);
    LineFront(key, value);
    LineFront(key, RStrip(value));
    if key != "" && key[0] == '[' {
      StripKeepsChar(value, ']');
      RStripPart(value);
      NoBracket(key, RStrip(value));
    }
    hide Strip, RStrip;
  }

  lemma LineFront(key: string, value: string)
    requires HasNo(key, '=')
    ensures var line := key + "=" + value;
      && IndexOf(line, '=') == |key| && line[..|key|] == key && line[|key| + 1..] == value
      && line[0] == if key == "" then '=' else key[0]
  {
    var line := key + "=" + value;
    assert line[|key|] == '=' && forall k :: 0 <= k < |key| ==> line[k] == key[k];
  }

  lemma NoBracket(key: string, value: string)
    requires HasNo(key, ']') && HasNo(value, ']')
    ensures IndexOf(key + "=" + value, ']') == |key + "=" + value|
  {
    var line := key + "=" + value;
    forall k | 0 <= k < |line| ensures line[k] != ']' {
      assert line[k] == if k < |key| then key[k] else if k == |key| then '=' else value[k - |key| - 1];
    }
  }

  /** Such a line parses to the entry with the stripped value. */
  lemma SpacedLine(p: Parser, key: string, value: string)
    requires SpacedEntry(key, value)
    ensures ParseLine(p, key + "=" + value) == ParseLine(p, key + "=" + Strip(value))
  {
    SpacedParses(p, key, value);
    StripTrimmed(value);
    TrimmedStrip(Strip(value));
    SpacedParses(p, key, Strip(value));
  }

  lemma SpacedParses(p: Parser, key: string, value: string)
    requires SpacedEntry(key, value)
    ensures ParseLine(p, key + "=" + value)
      == if p.current.Some? then p.(result := PutEntry(p.result, p.current.value, key, Strip(value))) else p
  {
    SpacedShape(key, value);
    StripRStrip(value);
    TrimmedStrip(key);
  }

  ghost predicate SameEffect(line: string, other: string) {
    forall p :: ParseLine(p, line) == ParseLine(p, other)
  }

  /** Lines that act alike one by one. */
  ghost predicate Alike(lines: seq<string>, others: seq<string>) {
    |lines| == |others| && forall k :: 0 <= k < |lines| ==> SameEffect(lines[k], others[k])
  }

  lemma AlikeSelf(lines: seq<string>)
    ensures Alike(lines, lines)
  {
  }

  lemma AlikeJoin(a: seq<string>, b: seq<string>, c: seq<string>, d: seq<string>)
    requires Alike(a, b) && Alike(c, d)
    ensures Alike(a + c, b + d)
  {
    hide SameEffect;
  }

  /** They act alike together. */
  lemma {:induction false} LinesAlike(p: Parser, lines: seq<string>, others: seq<string>)
    requires Alike(lines, others)
    ensures ParseLines(p, lines) == ParseLines(p, others)
    decreases |lines|
  {
    if lines != [] {
      assert SameEffect(lines[0], others[0]);
      LinesAlike(ParseLine(p, lines[0]), lines[1..], others[1..]);
    }
  }

  predicate SpacedKeys(keys: Keys) {
    forall j :: 0 <= j < |keys| ==> SpacedEntry(keys[j].key, keys[j].value)
  }

  lemma OneEntryAlike(key: string, value: string)
    requires SpacedEntry(key, value)
    ensures Alike([key + "=" + value], [key + "=" + Strip(value)]) && AllOneLine([key + "=" + value])
  {
    forall p ensures ParseLine(p, key + "=" + value) == ParseLine(p, key + "=" + Strip(value)) {
      SpacedLine(p, key, value);
    }
  }

  lemma {:induction false} EntriesAlike(keys: Keys)
    requires SpacedKeys(keys)
    ensures Alike(EntryLines(keys), EntryLines(StrippedKeys(keys))) && AllOneLine(EntryLines(keys))
    decreases |keys|
  {
    if keys != [] {
      EntriesAlike(keys[1..]);
      assert StrippedKeys(keys)[1..] == StrippedKeys(keys[1..]);
      OneEntryAlike(keys[0].key, keys[0].value);
      hide Alike, Strip;
      AlikeJoin([keys[0].key + "=" + keys[0].value], [keys[0].key + "=" + Strip(keys[0].value)],
                EntryLines(keys[1..]), EntryLines(StrippedKeys(keys[1..])));
    }
  }

  lemma AllOneLineJoin(a: seq<string>, b: seq<string>)
    requires AllOneLine(a) && AllOneLine(b)
    ensures AllOneLine(a + b)
  {
  }

  /** One section's lines, without and with the header, the blank and what follows. */
  lemma SectionAlike(name: string, keys: Keys, rest: seq<string>, others: seq<string>)
    requires CanonicalName(name) && SpacedKeys(keys) && Alike(rest, others) && AllOneLine(rest)
    ensures Alike([Header(name)] + (EntryLines(keys) + ([""] + rest)),
      [Header(name)] + (EntryLines(StrippedKeys(keys)) + ([""] + others)))
    ensures AllOneLine([Header(name)] + (EntryLines(keys) + ([""] + rest)))
  {
    assert AllOneLine([Header(name)]) && AllOneLine([""]);
    EntriesAlike(keys);
    hide Alike, AllOneLine;
    AlikeSelf([Header(name)]);
    AlikeSelf([""]);
    AlikeJoin([""], [""], rest, others);
    AlikeJoin(EntryLines(keys), EntryLines(StrippedKeys(keys)), [""] + rest, [""] + others);
    AlikeJoin([Header(name)], [Header(name)],
      EntryLines(keys) + ([""] + rest), EntryLines(StrippedKeys(keys)) + ([""] + others));
    AllOneLineJoin([""], rest);
    AllOneLineJoin(EntryLines(keys), [""] + rest);
    AllOneLineJoin([Header(name)], EntryLines(keys) + ([""] + rest));
  }

  lemma {:induction false} PartsAlike(ini: IniData)
    requires Spaced(ini)
    ensures Alike(Parts(ini), Parts(Stripped(ini))) && AllOneLine(Parts(ini))
    ensures ini != [] ==> |Parts(ini)| > 1 && Parts(ini)[|Parts(ini)| - 1] == ""
    decreases |ini|
  {
    if ini != [] {
      PartsAlike(ini[1..]);
      assert Stripped(ini)[1..] == Stripped(ini[1..]);
      hide Alike, AllOneLine;
      SectionAlike(ini[0].key, ini[0].value, Parts(ini[1..]), Parts(Stripped(ini[1..])));
    }
  }

  lemma StrippedIsCanonical(ini: IniData)
    requires WellFormed(ini) && Spaced(ini)
    ensures WellFormed(Stripped(ini)) && Canonical(Stripped(ini))
  {
  }

  lemma LastPart(parts: seq<string>)
    requires parts != []
    ensures parts[..|parts| - 1] + [parts[|parts| - 1]] == parts
  {
  }

  lemma SpacedLines(ini: IniData)
    requires Spaced(ini) && ini != []
    ensures SplitLines(Serialise(ini)) + [""] == Parts(ini)
  {
    hide Alike, AllOneLine, Spaced, Parts, Join, SplitLines;
    PartsAlike(ini);
    SplitJoin(Parts(ini));
    LastPart(Parts(ini));
  }

  /** Data whose values have spaces around them lose exactly those. */
  lemma SpacesAreLost(ini: IniData)
    requires WellFormed(ini) && Spaced(ini)
    ensures Parse(Serialise(ini)) == Stripped(ini)
  {
    hide Alike, AllOneLine, Spaced, WellFormed, Canonical, ParseLines;
    StrippedIsCanonical(ini);
    assert [] + Stripped(ini) == Stripped(ini);
    SectionsParse([], None, Stripped(ini));
    PartsAlike(ini);
    LinesAlike(Parser([], None), Parts(ini), Parts(Stripped(ini)));
    if ini != [] {
      SpacedLines(ini);
      FinalBlank(Parser([], None), SplitLines(Serialise(ini)));
    }
  }
}
