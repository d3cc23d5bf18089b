/** The loops of parse_ini and _serialise_ini, and reading and writing a profile. */
module IniProfile {
  import opened IniText
  import opened Ini
  import opened Options

  // ---- The two loops ----

  method ParseIni(text: string) returns (result: IniData)
    ensures result == Parse(text)
  {
    var lines := SplitLines(text);
    LinesAreOneLine(text);
    var current: Option<string> := None;
    result := [];
    assert lines[0..] == lines;
    for n := 0 to |lines|
      invariant GoodParser(Parser(result, current))
      invariant ParseLines(Parser(result, current), lines[n..]) == ParseLines(Parser([], None), lines)
    {
      var line := Strip(lines[n]);
      ghost var before := Parser(result, current);
      LineKeepsGood(before, lines[n]);
      if line == "" || line[0] == ';' || line[0] == '#' {
        // blank or comment
      } else if line[0] == '[' && IndexOf(line, ']') < |line| {
        var end := IndexOf(line, ']');
        current := Some(Lower(Strip(line[1..end])));
        if !Has(result, current.value) {
          result := Put(result, current.value, []);
        }
      } else if IndexOf(line, '=') < |line| && current.Some? {
        var at := IndexOf(line, '=');
        var entries := Put(Get(result, current.value), Lower(Strip(line[..at])), Strip(line[at + 1..]));
        result := Put(result, current.value, entries);
      }
      assert Parser(result, current) == ParseLine(before, lines[n]);
      assert lines[n..][0] == lines[n] && lines[n..][1..] == lines[n + 1..];
    }
  }

  lemma Regroup(parts: seq<string>, line: string, rest: seq<string>)
    ensures parts + ([line] + rest) == parts + [line] + rest
  {
  }

  lemma PartsAt(ini: IniData, n: nat, parts: seq<string>)
    requires n < |ini|
    ensures parts + Parts(ini[n..])
      == parts + [Header(ini[n].key)] + (EntryLines(ini[n].value) + ([""] + Parts(ini[n + 1..])))
  {
    assert ini[n..][0] == ini[n] && ini[n..][1..] == ini[n + 1..];
    Regroup(parts, Header(ini[n].key), EntryLines(ini[n].value) + ([""] + Parts(ini[n + 1..])));
  }

  lemma EntriesAt(keys: Keys, m: nat, parts: seq<string>, rest: seq<string>)
    requires m < |keys|
    ensures parts + (EntryLines(keys[m..]) + rest)
      == parts + [keys[m].key + "=" + keys[m].value] + (EntryLines(keys[m + 1..]) + rest)
  {
    assert keys[m..][0] == keys[m] && keys[m..][1..] == keys[m + 1..];
    Regroup(parts, keys[m].key + "=" + keys[m].value, EntryLines(keys[m + 1..]) + rest);
  }

  method SerialiseIni(ini: IniData) returns (text: string)
    ensures text == Serialise(ini)
  {
    var parts: seq<string> := [];
    assert ini[0..] == ini;
    for n := 0 to |ini|
      invariant parts + Parts(ini[n..]) == Parts(ini)
    {
      PartsAt(ini, n, parts);
      ghost var rest := [""] + Parts(ini[n + 1..]);
      parts := parts + [Header(ini[n].key)];
      var keys := ini[n].value;
      assert keys[0..] == keys;
      for m := 0 to |keys|
        invariant parts + (EntryLines(keys[m..]) + rest) == Parts(ini)
      {
        EntriesAt(keys, m, parts, rest);
        parts := parts + [keys[m].key + "=" + keys[m].value];
      }
      assert EntryLines(keys[|keys|..]) + rest == rest;
      parts := parts + [""];
      Regroup(parts[..|parts| - 1], "", Parts(ini[n + 1..]));
    }
    assert parts == Parts(ini);
    text := Join(parts);
  }

  // ---- Reading ----

  /** ini.get(section, {}) */
  function SectionOf(ini: IniData, section: string): Keys {
    if Has(ini, section) then Get(ini, section) else []
  }

  function Lookup(ini: IniData, section: string, key: string): Option<string> {
    var keys := SectionOf(ini, section);
    if Has(keys, key) then Some(Get(keys, key)) else None
  }

  function Names<V>(d: Dict<V>): (names: seq<string>)
    ensures |names| == |d|
  {
    seq(|d|, k requires 0 <= k < |d| => d[k].key)
  }

  /** "\0".join(names) */
  function JoinNul(names: seq<string>): string {
    if names == [] then "" else if |names| == 1 then names[0] else names[0] + "\0" + JoinNul(names[1..])
  }

  /** read_profile_string */
  function Read(ini: IniData, app: Option<string>, key: Option<string>, default: string): string {
    if app.None? then JoinNul(Names(ini))
    else if key.None? then JoinNul(Names(SectionOf(ini, Lower(app.value))))
    else match Lookup(ini, Lower(app.value), Lower(key.value)) case Some(v) => v case None => default
  }

  function SplitNul(s: string): seq<string>
    decreases |s|
  {
    var n := IndexOf(s, '\0');
    if n == |s| then [s] else [s[..n]] + SplitNul(s[n + 1..])
  }

  /** An enumeration separates into exactly the names listed. */
  lemma {:induction false} EnumerationSplits(names: seq<string>)
    requires names != [] && forall k :: 0 <= k < |names| ==> HasNo(names[k], '\0')
    ensures SplitNul(JoinNul(names)) == names
  {
    var s := JoinNul(names);
    if |names| > 1 {
      assert s[|names[0]|] == '\0';
      assert forall k :: 0 <= k < |names[0]| ==> s[k] == names[0][k];
      assert s[..|names[0]|] == names[0] && s[|names[0]| + 1..] == JoinNul(names[1..]);
      EnumerationSplits(names[1..]);
    }
  }

  /** read_profile_string. With both names it is the value of that key in that
      section whatever the case of the letters, or the default exactly if there is
      none; without a name it lists the keys or the sections. */
  method ReadProfileString(ini: IniData, app: Option<string>, key: Option<string>, default: string) returns (r: string)
    requires WellFormed(ini)
    ensures app.Some? && key.Some? ==> forall v :: Defines(ini, Lower(app.value), Lower(key.value), v) ==> r == v
    ensures app.Some? && key.Some? && (forall v :: !Defines(ini, Lower(app.value), Lower(key.value), v)) ==>
      r == default
    ensures app.Some? && key.None? ==> forall i :: 0 <= i < |ini| && ini[i].key == Lower(app.value) ==>
      Lists(r, Names(ini[i].value))
    ensures app.Some? && key.None? && (forall i :: 0 <= i < |ini| ==> ini[i].key != Lower(app.value)) ==> r == ""
    ensures app.None? ==> Lists(r, Names(ini))
    ensures r == Read(ini, app, key, default)
  {
    if app.None? {
      ListsJoined(Names(ini));
      return JoinNul(Names(ini));
    }
    var section := if Has(ini, Lower(app.value)) then Get(ini, Lower(app.value)) else [];
    OnlyAtFind(ini, Lower(app.value));
    if key.None? {
      ListsJoined(Names(section));
      return JoinNul(Names(section));
    }
    OnlyAtFind(section, Lower(key.value));
    DefinesIff(ini, Lower(app.value), Lower(key.value));
    r := if Has(section, Lower(key.value)) then Get(section, Lower(key.value)) else default;
  }

  /** Some section of that name has an entry key = value. */
  ghost predicate Defines(ini: IniData, section: string, key: string, value: string) {
    exists i, j ::
      0 <= i < |ini| && 0 <= j < |ini[i].value| && ini[i].key == section && ini[i].value[j] == Pair(key, value)
  }

  /** A text that separates at its zeros into these names, if none holds a zero. */
  predicate Lists(r: string, names: seq<string>) {
    if names == [] then r == "" else (forall k :: 0 <= k < |names| ==> HasNo(names[k], '\0')) ==> SplitNul(r) == names
  }

  lemma ListsJoined(names: seq<string>)
    ensures Lists(JoinNul(names), names)
  {
    if names != [] && forall k :: 0 <= k < |names| ==> HasNo(names[k], '\0') {
      EnumerationSplits(names);
    }
  }

  lemma DefinesIff(ini: IniData, section: string, key: string)
    requires WellFormed(ini)
    ensures forall v :: Defines(ini, section, key, v) <==> Lookup(ini, section, key) == Some(v)
  {
    OnlyAtFind(ini, section);
    OnlyAtFind(SectionOf(ini, section), key);
    forall v | Lookup(ini, section, key) == Some(v) ensures Defines(ini, section, key, v) {
      var i := Find(ini, section);
      assert ini[i].value[Find(ini[i].value, key)] == Pair(key, v);
    }
  }

  lemma OnlyAtFind<V>(d: Dict<V>, key: string)
    requires Unique(d)
    ensures forall k :: 0 <= k < |d| && d[k].key == key ==> k == Find(d, key)
  {
  }

  // ---- Writing ----

  function SetEntry(ini: IniData, section: string, key: string, value: string): IniData {
    Put(ini, section, Put(SectionOf(ini, section), key, value))
  }

  function DropEntry(ini: IniData, section: string, key: string): IniData {
    if Has(ini, section) then Put(ini, section, Drop(Get(ini, section), key)) else ini
  }

  /** What write_profile_string does to the data. */
  function Updated(ini: IniData, app: string, key: Option<string>, value: Option<string>): IniData {
    if key.None? then Drop(ini, Lower(app))
    else if value.None? then DropEntry(ini, Lower(app), Lower(key.value))
    else SetEntry(ini, Lower(app), Lower(key.value), value.value)
  }

  /** The data of a file that may be absent. */
  function Loaded(text: Option<string>): IniData {
    match text case Some(t) => Parse(t) case None => []
  }

  /** The profile file on disk; None is no file. */
  class ProfileFile {
    var text: Option<string>

    constructor (text: Option<string>)
      ensures this.text == text
    {
      this.text := text;
    }

    method Load() returns (ini: IniData)
      ensures ini == Loaded(text)
    {
      if text.Some? {
        ini := ParseIni(text.value);
      } else {
        ini := [];
      }
    }

    method Store(ini: IniData)
      modifies this
      ensures text == Some(Serialise(ini))
    {
      var rendered := SerialiseIni(ini);
      text := Some(rendered);
    }

    method WriteProfileString(app: Option<string>, key: Option<string>, value: Option<string>) returns (ok: bool)
      modifies this
      ensures ok <==> app.Some?
      ensures text == if ok then Some(Serialise(Updated(Loaded(old(text)), app.value, key, value))) else old(text)
    {
      if app.None? { return false; }
      var ini := Load();
      var section := Lower(app.value);
      if key.None? {
        ini := Drop(ini, section);
      } else if value.None? {
        if Has(ini, section) {
          ini := Put(ini, section, Drop(Get(ini, section), Lower(key.value)));
        }
      } else {
        if !Has(ini, section) {
          GetPut(ini, section, [], section);
          PutTwice(ini, section, [], Put([], Lower(key.value), value.value));
          ini := Put(ini, section, []);
        }
        ini := Put(ini, section, Put(Get(ini, section), Lower(key.value), value.value));
      }
      Store(ini);
      ok := true;
    }

    method WriteProfileSection(app: Option<string>, pairs: Keys) returns (ok: bool)
      modifies this
      ensures ok <==> app.Some?
      ensures text == if ok then Some(Serialise(Put(Loaded(old(text)), Lower(app.value), pairs))) else old(text)
    {
      if app.None? { return false; }
      var ini := Load();
      Store(Put(ini, Lower(app.value), pairs));
      ok := true;
    }

    /** GetPrivateProfileString on the file. */
    method ReadString(app: Option<string>, key: Option<string>, default: string) returns (r: string)
      ensures r == Read(Loaded(text), app, key, default)
    {
      var ini := Load();
      LoadedIsCanonical(text);
      r := ReadProfileString(ini, app, key, default);
    }
  }

  // ---- What a write leaves behind ----

  lemma PutTwice<V>(d: Dict<V>, key: string, first: V, second: V)
    ensures Put(Put(d, key, first), key, second) == Put(d, key, second)
  {
    GetPut(d, key, first, key);
    if !Has(d, key) { LastIs(d, Pair(key, first)); }
  }

  lemma LoadedIsCanonical(text: Option<string>)
    ensures WellFormed(Loaded(text)) && Canonical(Loaded(text))
  {
    if text.Some? { ParseIsCanonical(text.value); }
  }

  lemma SectionIsGood(ini: IniData, section: string)
    requires WellFormed(ini) && Canonical(ini)
    ensures Unique(SectionOf(ini, section)) && CanonicalKeys(SectionOf(ini, section))
  {
  }

  lemma PutEntryCanonical(keys: Keys, key: string, value: string)
    requires CanonicalKeys(keys)
    ensures CanonicalKeys(Put(keys, key, value)) <==> CanonicalEntry(key, value)
  {
    var r := Put(keys, key, value);
    assert r[Find(keys, key)] == Pair(key, value);
  }

  lemma PutCanonical(ini: IniData, section: string, keys: Keys)
    requires Canonical(ini)
    ensures Canonical(Put(ini, section, keys)) <==> CanonicalName(section) && CanonicalKeys(keys)
  {
    var r := Put(ini, section, keys);
    assert r[Find(ini, section)] == Pair(section, keys);
  }

  lemma PutWellFormed(ini: IniData, section: string, keys: Keys)
    requires WellFormed(ini) && Unique(keys)
    ensures WellFormed(Put(ini, section, keys))
  {
    PutUnique(ini, section, keys);
  }

  /** A value written to a file reads back, with all the rest of the file, exactly
      when the section name, key and value are canonical. */
  lemma SetSurvivesIff(text: Option<string>, app: string, key: string, value: string)
    ensures var ini := Updated(Loaded(text), app, Some(key), Some(value));
      Parse(Serialise(ini)) == ini <==> CanonicalName(Lower(app)) && CanonicalEntry(Lower(key), value)
  {
    var before := Loaded(text);
    var s, k := Lower(app), Lower(key);
    LoadedIsCanonical(text);
    SectionIsGood(before, s);
    var keys := SectionOf(before, s);
    PutEntryCanonical(keys, k, value);
    PutUnique(keys, k, value);
    PutCanonical(before, s, Put(keys, k, value));
    PutWellFormed(before, s, Put(keys, k, value));
    RoundTripIff(SetEntry(before, s, k, value));
  }

  /** Setting an entry changes that entry and no other. */
  lemma SetReads(ini: IniData, section: string, key: string, value: string, s: string, k: string)
    ensures Lookup(SetEntry(ini, section, key, value), s, k)
      == if s == section && k == key then Some(value) else Lookup(ini, s, k)
  {
    var keys := Put(SectionOf(ini, section), key, value);
    GetPut(ini, section, keys, s);
    GetPut(SectionOf(ini, section), key, value, k);
  }

  /** The last definition of a key wins: an entry line in a section defines its key
      there, whatever it was before, and nothing else. */
  lemma LastDefinitionWins(p: Parser, raw: string, s: string, k: string)
    requires GoodParser(p) && p.current.Some?
    requires var line := Strip(raw);
      line != "" && line[0] != ';' && line[0] != '#'
      && !(line[0] == '[' && IndexOf(line, ']') < |line|) && IndexOf(line, '=') < |line|
    ensures Lookup(ParseLine(p, raw).result, s, k)
      == if s == p.current.value && k == EntryKey(Strip(raw)) then Some(EntryValue(Strip(raw)))
      else Lookup(p.result, s, k)
  {
    var line := Strip(raw);
    assert ParseLine(p, raw).result == SetEntry(p.result, p.current.value, EntryKey(line), EntryValue(line));
    SetReads(p.result, p.current.value, EntryKey(line), EntryValue(line), s, k);
  }

  /** A dictionary entry replaced by one with a stripped value. */
  lemma StrippedPut(keys: Keys, key: string, value: string)
    requires CanonicalKeys(keys)
    ensures StrippedKeys(Put(keys, key, value)) == Put(keys, key, Strip(value))
  {
    var r := Put(keys, key, value);
    forall k | 0 <= k < |r| ensures StrippedKeys(r)[k] == Put(keys, key, Strip(value))[k] {
      if k < |keys| && k != Find(keys, key) { TrimmedStrip(keys[k].value); }
    }
  }

  lemma CanonicalStripped(keys: Keys)
    requires CanonicalKeys(keys)
    ensures StrippedKeys(keys) == keys && SpacedKeys(keys)
  {
    forall k | 0 <= k < |keys| ensures Strip(keys[k].value) == keys[k].value {
      TrimmedStrip(keys[k].value);
    }
  }

  lemma SetStripped(ini: IniData, s: string, k: string, value: string)
    requires WellFormed(ini) && Canonical(ini) && CanonicalName(s) && SpacedEntry(k, value)
    ensures WellFormed(SetEntry(ini, s, k, value)) && Spaced(SetEntry(ini, s, k, value))
    ensures Stripped(SetEntry(ini, s, k, value)) == SetEntry(ini, s, k, Strip(value))
  {
    var keys := SectionOf(ini, s);
    SectionIsGood(ini, s);
    PutUnique(keys, k, value);
    PutWellFormed(ini, s, Put(keys, k, value));
    StrippedPut(keys, k, value);
    CanonicalStripped(keys);
    var r := SetEntry(ini, s, k, value);
    forall n | 0 <= n < |r|
      ensures Stripped(r)[n] == SetEntry(ini, s, k, Strip(value))[n] && CanonicalName(r[n].key)
      ensures SpacedKeys(r[n].value)
    {
      if n < |ini| && n != Find(ini, s) { CanonicalStripped(ini[n].value); }
    }
  }

  /** Writing a value and reading the file: the value comes back without the spaces
      at its ends, so unchanged exactly if it had none, and every other read gives
      what it gave before. */
  lemma WriteThenRead(text: Option<string>, app: string, key: string, value: string, app2: string, key2: string,
                      default: string)
    requires CanonicalName(Lower(app)) && SpacedEntry(Lower(key), value)
    ensures var after := Some(Serialise(Updated(Loaded(text), app, Some(key), Some(value))));
      Read(Loaded(after), Some(app2), Some(key2), default)
      == if Lower(app2) == Lower(app) && Lower(key2) == Lower(key) then Strip(value)
         else Read(Loaded(text), Some(app2), Some(key2), default)
    ensures Strip(value) == value <==> Trimmed(value)
  {
    LoadedIsCanonical(text);
    SetStripped(Loaded(text), Lower(app), Lower(key), value);
    SpacesAreLost(SetEntry(Loaded(text), Lower(app), Lower(key), value));
    SetReads(Loaded(text), Lower(app), Lower(key), Strip(value), Lower(app2), Lower(key2));
    StripTrimmed(value);
    if Trimmed(value) { TrimmedStrip(value); }
  }

  /** A written value reads back exactly if the names and the value are canonical. */
  lemma ReadsBackIff(text: Option<string>, app: string, key: string, value: string)
    ensures var after := Some(Serialise(Updated(Loaded(text), app, Some(key), Some(value))));
      (Lookup(Loaded(after), Lower(app), Lower(key)) == Some(value) <==>
         CanonicalName(Lower(app)) && CanonicalEntry(Lower(key), value))
  {
    var s, k, ini := Lower(app), Lower(key), Updated(Loaded(text), app, Some(key), Some(value));
    SetSurvivesIff(text, app, key, value);
    SetReads(Loaded(text), s, k, value, s, k);
    LoadedIsCanonical(Some(Serialise(ini)));
    FoundIsCanonical(Loaded(Some(Serialise(ini))), s, k);
  }

  lemma FoundIsCanonical(ini: IniData, s: string, k: string)
    requires WellFormed(ini) && Canonical(ini)
    ensures var v := Lookup(ini, s, k); v.Some? ==> CanonicalName(s) && CanonicalEntry(k, v.value)
  {
    if Lookup(ini, s, k).Some? {
      var keys := Get(ini, s);
      assert CanonicalName(ini[Find(ini, s)].key) && CanonicalKeys(keys);
      assert CanonicalEntry(keys[Find(keys, k)].key, keys[Find(keys, k)].value);
    }
  }

  /** Dropping takes out the pair at Find, if any. */
  lemma {:induction false} DropPairs<V>(d: Dict<V>, key: string)
    ensures |Drop(d, key)| == if Has(d, key) then |d| - 1 else |d|
    ensures forall k :: 0 <= k < |Drop(d, key)| ==> Drop(d, key)[k] == d[if k < Find(d, key) then k else k + 1]
    decreases |d|
  {
    var r := Drop(d, key);
    if d == [] {
    } else if d[0].key == key {
      assert r == d[1..] && Find(d, key) == 0;
    } else {
      var t := d[1..];
      DropPairs(t, key);
      assert r == [d[0]] + Drop(t, key) && Find(d, key) == 1 + Find(t, key);
      forall k | 0 < k < |r| ensures r[k] == d[if k < Find(d, key) then k else k + 1] {
        assert r[k] == Drop(t, key)[k - 1];
        assert t[if k - 1 < Find(t, key) then k - 1 else k] == d[if k < Find(d, key) then k else k + 1];
      }
    }
  }

  lemma DropUnique<V>(d: Dict<V>, key: string)
    requires Unique(d)
    ensures Unique(Drop(d, key))
  {
    DropPairs(d, key);
    var r, i := Drop(d, key), Find(d, key);
    forall j, k | 0 <= j < k < |r| ensures r[j].key != r[k].key {
      assert r[j] == d[if j < i then j else j + 1];
      assert r[k] == d[if k < i then k else k + 1];
    }
  }

  /** A dropped key is gone, the others read as before. */
  lemma DropReads<V>(d: Dict<V>, key: string, other: string)
    requires Unique(d)
    ensures Has(Drop(d, key), other) <==> other != key && Has(d, other)
    ensures other != key && Has(d, other) ==> Get(Drop(d, key), other) == Get(d, other)
  {
    DropPairs(d, key);
    var r, i, j := Drop(d, key), Find(d, key), Find(d, other);
    if other == key {
      forall k | 0 <= k < |r| ensures r[k].key != key {
        assert r[k] == d[if k < i then k else k + 1];
      }
    } else if j == |d| {
      forall k | 0 <= k < |r| ensures r[k].key != other {
        assert r[k] == d[if k < i then k else k + 1];
      }
    } else {
      var at := if j < i then j else j - 1;
      assert r[at] == d[j];
      forall k | 0 <= k < at ensures r[k].key != other {
        assert r[k] == d[if k < i then k else k + 1];
      }
      assert Find(r, other) == at;
    }
  }

  lemma DropCanonicalKeys(keys: Keys, key: string)
    requires CanonicalKeys(keys)
    ensures CanonicalKeys(Drop(keys, key))
  {
    DropPairs(keys, key);
  }

  lemma DropCanonical(ini: IniData, section: string)
    requires WellFormed(ini) && Canonical(ini)
    ensures WellFormed(Drop(ini, section)) && Canonical(Drop(ini, section))
  {
    DropUnique(ini, section);
    DropPairs(ini, section);
  }

  lemma DropEntryCanonical(ini: IniData, section: string, key: string)
    requires WellFormed(ini) && Canonical(ini)
    ensures WellFormed(DropEntry(ini, section, key)) && Canonical(DropEntry(ini, section, key))
  {
    if Has(ini, section) {
      var keys := Get(ini, section);
      SectionIsGood(ini, section);
      DropUnique(keys, key);
      DropCanonicalKeys(keys, key);
      PutWellFormed(ini, section, Drop(keys, key));
      assert CanonicalName(ini[Find(ini, section)].key);
      PutCanonical(ini, section, Drop(keys, key));
    }
  }

  lemma DropEntryReads(ini: IniData, section: string, key: string, s: string, k: string)
    requires WellFormed(ini)
    ensures Lookup(DropEntry(ini, section, key), s, k) == if s == section && k == key then None else Lookup(ini, s, k)
  {
    if Has(ini, section) {
      var keys := Get(ini, section);
      DropReads(keys, key, k);
      GetPut(ini, section, Drop(keys, key), s);
    }
  }

  /** Deleting a key: it is gone, the rest of the file reads as before, whatever
      the names. */
  lemma DeleteKey(text: Option<string>, app: string, key: string, s: string, k: string)
    ensures var after := Some(Serialise(Updated(Loaded(text), app, Some(key), None)));
      Lookup(Loaded(after), s, k) == if s == Lower(app) && k == Lower(key) then None else Lookup(Loaded(text), s, k)
  {
    LoadedIsCanonical(text);
    DropEntryCanonical(Loaded(text), Lower(app), Lower(key));
    CanonicalRoundTrip(DropEntry(Loaded(text), Lower(app), Lower(key)));
    DropEntryReads(Loaded(text), Lower(app), Lower(key), s, k);
  }

  /** Deleting a section: it and its keys are gone, the rest is as before. */
  lemma DeleteSection(text: Option<string>, app: string, s: string, k: string)
    ensures var after := Some(Serialise(Updated(Loaded(text), app, None, None)));
      && (Has(Loaded(after), s) <==> s != Lower(app) && Has(Loaded(text), s))
      && Lookup(Loaded(after), s, k) == if s == Lower(app) then None else Lookup(Loaded(text), s, k)
  {
    LoadedIsCanonical(text);
    DropCanonical(Loaded(text), Lower(app));
    CanonicalRoundTrip(Drop(Loaded(text), Lower(app)));
    DropReads(Loaded(text), Lower(app), s);
  }

  /** Replacing a section: it holds exactly the given pairs, in order, the rest is
      as before - exactly when its name and all the pairs are canonical. */
  lemma ReplaceSectionIff(text: Option<string>, app: string, pairs: Keys)
    requires Unique(pairs)
    ensures var ini := Put(Loaded(text), Lower(app), pairs);
      && (Parse(Serialise(ini)) == ini <==> CanonicalName(Lower(app)) && CanonicalKeys(pairs))
      && SectionOf(ini, Lower(app)) == pairs
      && forall s :: s != Lower(app) ==> SectionOf(ini, s) == SectionOf(Loaded(text), s)
  {
    LoadedIsCanonical(text);
    PutCanonical(Loaded(text), Lower(app), pairs);
    PutWellFormed(Loaded(text), Lower(app), pairs);
    var ini := Put(Loaded(text), Lower(app), pairs);
    RoundTripIff(ini);
    GetPut(Loaded(text), Lower(app), pairs, Lower(app));
    forall s | s != Lower(app) ensures SectionOf(ini, s) == SectionOf(Loaded(text), s) {
      GetPut(Loaded(text), Lower(app), pairs, s);
    }
  }
}
