/** What a conversion takes from the text it scans, character by character. */
module ScanExact {
  import opened Lists
  import opened LittleEndian
  import opened Numerals
  import opened PrintScan
  import S = Scanf

  predicate Blanks(s: string) {
    forall k :: 0 <= k < |s| ==> s[k] == ' ' || s[k] == '\t' || s[k] == '\n' || s[k] == '\r'
  }

  predicate Superscript(c: char) {
    c as int == 0xb2 || c as int == 0xb3 || c as int == 0xb9
  }

  /** A character the loop of a conversion goes over. */
  predicate Taken(letter: char, c: char) {
    || '0' <= c <= '9'
    || if letter == 'x' then 'a' <= c <= 'f' || 'A' <= c <= 'F' else Superscript(c)
  }

  /** A conversion: width digits, a length modifier and a letter. */
  predicate Conversion(width: string, modifier: string, letter: char) {
    && AllDecimal(width) && IsModifier(modifier) && modifier != "I64"
    && !('0' <= letter <= '9') && !Superscript(letter) && letter != 'l' && letter != 'h' && letter != 'L'
  }

  function Specification(width: string, modifier: string, letter: char): string {
    "%" + (width + (modifier + [letter]))
  }

  /** What stands before the digits: a sign for d and i, 0x for x; s comes after it. */
  predicate LeadIs(letter: char, lead: string, s: string) {
    if letter == 'x' then
      lead == "0x" || lead == "0X" || (lead == "" && !(|s| > 1 && s[0] == '0' && (s[1] == 'x' || s[1] == 'X')))
    else if letter == 'u' then lead == ""
    else lead == "+" || lead == "-" || (lead == "" && (s == "" || (s[0] != '+' && s[0] != '-')))
  }

  /** All of the digits, or as many as the width leaves room for. */
  predicate TokenIs(letter: char, used: nat, token: string, t: string, max: nat) {
    && (forall k :: 0 <= k < |token| ==> Taken(letter, token[k]))
    && (max == 0 || token == "" || used + |token| <= max)
    && (t == "" || !Taken(letter, t[0]) || (max > 0 && used + |token| >= max))
  }

  lemma {:induction false} RunTaken(letter: char, used: nat, token: string, t: string, max: nat)
    requires TokenIs(letter, used, token, t, max)
    ensures S.Run(token + t, letter == 'x', used, max) == |token|
    decreases |token|
  {
    if token == "" {
      assert token + t == t;
    } else {
      assert (token + t)[1..] == token[1..] + t;
      RunTaken(letter, used + 1, token[1..], t, max);
    }
  }

  lemma {:induction false} BlanksSkipped(blanks: string, s: string)
    requires Blanks(blanks) && (s == "" || !Blanks(s[..1]))
    ensures S.Skip(blanks + s) == s
    decreases |blanks|
  {
    if blanks == "" {
      assert blanks + s == s;
      assert s != "" ==> s[..1][0] == s[0];
    } else {
      assert (blanks + s)[1..] == blanks[1..] + s;
      BlanksSkipped(blanks[1..], s);
    }
  }

  lemma {:induction false} DecimalCount(width: string, t: string)
    requires AllDecimal(width) && t != "" && !IsDigit(t[0])
    ensures DigitCount(width + t) == |width|
    decreases |width|
  {
    if width == "" {
      assert width + t == t;
    } else {
      assert (width + t)[1..] == width[1..] + t;
      DecimalCount(width[1..], t);
    }
  }

  /** The specification is read as written. */
  lemma SpecificationRead(width: string, modifier: string, letter: char, fmt: string)
    requires Conversion(width, modifier, letter)
    ensures S.ParseSpec((Specification(width, modifier, letter) + fmt)[1..]) == S.Spec(letter, Value(width, 10), fmt)
  {
    var s := (Specification(width, modifier, letter) + fmt)[1..];
    var t := modifier + ([letter] + fmt);
    assert s == width + t;
    ModifierSkipped(modifier, letter, fmt);
    DecimalCount(width, t);
    assert NoSuperscript(width);
    hide S.SkipModifier, IsModifier, Specification, DigitCount;
    assert s[..|width|] == width && s[|width|..] == t;
    assert ([letter] + fmt)[1..] == fmt;
  }

  lemma ModifierSkipped(modifier: string, letter: char, fmt: string)
    requires Conversion("", modifier, letter)
    ensures var t := modifier + ([letter] + fmt); t != "" && !IsDigit(t[0]) && S.SkipModifier(t) == [letter] + fmt
  {
    var t := modifier + ([letter] + fmt);
    assert t[0] == if modifier == "" then letter else modifier[0];
    assert t[|modifier|..] == [letter] + fmt;
  }

  /** The word of a sign and digits. */
  function WordOf(letter: char, lead: string, token: string): Word32 {
    var n: int := Value(token, if letter == 'x' then 16 else 10);
    (if lead == "-" then -n else n) % 0x1_0000_0000
  }

  /** What reading a lead and a token gives, before t. */
  function Outcome(letter: char, lead: string, token: string, t: string): S.Read {
    if token == "" then if letter == 'x' && lead != "" then S.Refused else S.Stop
    else if exists k :: 0 <= k < |token| && Superscript(token[k]) then S.Refused
    else S.Value(WordOf(letter, lead, token), t)
  }

  lemma DigitsOutcome(letter: char, negative: bool, used: nat, token: string, t: string, max: nat)
    requires letter != 'x' && TokenIs(letter, used, token, t, max)
    ensures S.ReadDigits(negative, token + t, used, max) == Outcome(letter, if negative then "-" else "", token, t)
  {
    RunTaken(letter, used, token, t, max);
    assert (token + t)[..|token|] == token && (token + t)[|token|..] == t;
  }

  lemma HexOutcome(lead: string, token: string, t: string, max: nat)
    requires LeadIs('x', lead, token + t) && TokenIs('x', |lead|, token, t, max)
    ensures S.ReadHex(lead + (token + t), max) == Outcome('x', lead, token, t)
  {
    var s := lead + (token + t);
    RunTaken('x', |lead|, token, t, max);
    assert s[|lead|..] == token + t;
    assert (token + t)[..|token|] == token && (token + t)[|token|..] == t;
    assert lead == "" ==> s == token + t;
  }

  lemma NumberOutcome(letter: char, lead: string, token: string, t: string, max: nat)
    requires letter == 'd' || letter == 'i' || letter == 'u' || letter == 'x'
    requires LeadIs(letter, lead, token + t) && TokenIs(letter, |lead|, token, t, max)
    ensures S.ReadNumber(letter, lead + (token + t), max) == Outcome(letter, lead, token, t)
  {
    hide S.Run, S.ReadDigits, S.ReadHex, TokenIs;
    if letter == 'x' {
      HexOutcome(lead, token, t, max);
    } else {
      assert lead == "" ==> lead + (token + t) == token + t;
      assert lead != "" ==> (lead + (token + t))[1..] == token + t;
      DigitsOutcome(letter, lead == "-", |lead|, token, t, max);
    }
  }

  lemma OneConversion(src: string, fmt: string, letter: char, max: nat, rest: string, pointer: nat,
                      stores: seq<S.Store>)
    requires fmt != "" && fmt[0] == '%' && S.ParseSpec(fmt[1..]) == S.Spec(letter, max, rest) && S.IsInteger(letter)
    ensures S.Scan(src, fmt, pointer, stores) ==
      match S.ReadNumber(letter, S.Skip(src), max)
      case Stop => S.Scanned(stores)
      case Refused => S.Fails
      case Nothing(left) => S.Scan(left, rest, pointer + 1, stores)
      case Value(v, left) => S.Scan(left, rest, pointer + 1, stores + [S.Store(pointer, v)])
  {
    hide S.ParseSpec, S.ReadNumber, S.Skip;
  }

  /** An integer conversion skips blanks, takes a sign or prefix and then the digits,
      as many as its width allows with the sign and prefix counted, and stores their
      worth. Without digits the scan ends, or raises after a bare prefix; a
      superscript among the digits raises. */
  lemma NumberScanned(width: string, modifier: string, letter: char, blanks: string, lead: string, token: string,
                      t: string, fmt: string, pointer: nat, stores: seq<S.Store>)
    requires Conversion(width, modifier, letter)
    requires letter == 'd' || letter == 'i' || letter == 'u' || letter == 'x'
    requires Blanks(blanks) && LeadIs(letter, lead, token + t)
    requires TokenIs(letter, |lead|, token, t, Value(width, 10))
    requires lead + (token + t) == "" || !Blanks((lead + (token + t))[..1])
    ensures S.Scan(blanks + (lead + (token + t)), Specification(width, modifier, letter) + fmt, pointer, stores) ==
      if token == "" then if letter == 'x' && lead != "" then S.Fails else S.Scanned(stores)
      else if exists k :: 0 <= k < |token| && Superscript(token[k]) then S.Fails
      else S.Scan(t, fmt, pointer + 1, stores + [S.Store(pointer, WordOf(letter, lead, token))])
  {
    var s := lead + (token + t);
    BlanksSkipped(blanks, s);
    SpecificationRead(width, modifier, letter, fmt);
    NumberOutcome(letter, lead, token, t, Value(width, 10));
    assert (Specification(width, modifier, letter) + fmt)[0] == '%';
    hide S.Scan, S.Skip, S.ParseSpec, S.ReadNumber, Specification, Conversion, LeadIs, TokenIs, Blanks, WordOf;
    OneConversion(blanks + s, Specification(width, modifier, letter) + fmt, letter, Value(width, 10), fmt, pointer,
      stores);
  }

  predicate IsConversion(letter: char) {
    letter == 'd' || letter == 'i' || letter == 'u' || letter == 'x' || letter == 'f' || letter == 'e' || letter == 'g'
    || letter == 's' || letter == 'c'
  }

  /** A letter that is no conversion skips blanks, unless it is an opening bracket,
      and uses up a pointer. */
  lemma OtherLetter(width: string, modifier: string, letter: char, blanks: string, t: string, fmt: string,
                    pointer: nat, stores: seq<S.Store>)
    requires Conversion(width, modifier, letter) && !IsConversion(letter)
    requires Blanks(blanks) && (t == "" || !Blanks(t[..1]))
    ensures S.Scan(blanks + t, Specification(width, modifier, letter) + fmt, pointer, stores)
      == S.Scan(if letter == '[' then blanks + t else t, fmt, pointer + 1, stores)
  {
    BlanksSkipped(blanks, t);
    SpecificationRead(width, modifier, letter, fmt);
    assert (Specification(width, modifier, letter) + fmt)[0] == '%';
    hide S.ParseSpec, Specification, Conversion, Blanks, S.Skip;
  }

  /** A blank in the format skips blanks. */
  lemma BlankScanned(blanks: string, t: string, fmt: string, pointer: nat, stores: seq<S.Store>)
    requires Blanks(blanks) && (t == "" || !Blanks(t[..1]))
    ensures S.Scan(blanks + t, " " + fmt, pointer, stores) == S.Scan(t, fmt, pointer, stores)
  {
    BlanksSkipped(blanks, t);
    ScanBlank(blanks + t, fmt, pointer, stores);
  }
}
