/** The text parsers of specs.py: `_parse_number`, `_parse_vehicle_durability`
    and `_parse_name_category`, with the character classes of Python's `re`
    and `str` methods they rely on. */
module TextFields {
  import opened Grids

  /** A value of the record dict: an `int`, a `str` or `None`. */
  datatype Value = Int(n: int) | Str(s: string) | Null

  /** The record dict (`t.Dict[str, t.Any]`); key order is not modelled. */
  type Record = map<string, Value>

  // ---------------------------------------------------------------------------
  // Character classes

  /** `[0-9]`: the ASCII digits only. */
  predicate IsDigit(c: char) { '0' <= c <= '9' }

  predicate NotDigit(c: char) { !IsDigit(c) }

  predicate IsAsciiLetter(c: char) { 'a' <= c <= 'z' || 'A' <= c <= 'Z' }

  predicate IsAsciiAlnum(c: char) { IsAsciiLetter(c) || IsDigit(c) }

  /** `\w`, restricted to ASCII: letters, digits and the underscore. */
  predicate IsWordChar(c: char) { IsAsciiAlnum(c) || c == '_' }

  /** Python's whitespace (`str.isspace`, `str.strip()` and `\s`). */
  predicate IsSpace(c: char)
  {
    var n := c as int;
    (0x09 <= n <= 0x0D) || (0x1C <= n <= 0x20) || n == 0x85 || n == 0xA0 || n == 0x1680
    || (0x2000 <= n <= 0x200A) || n == 0x2028 || n == 0x2029 || n == 0x202F || n == 0x205F
    || n == 0x3000
  }

  /** The line boundaries of `str.splitlines()` (`\r\n` counts as one boundary). */
  predicate IsLineBreak(c: char)
  {
    var n := c as int;
    (0x0A <= n <= 0x0D) || (0x1C <= n <= 0x1E) || n == 0x85 || n == 0x2028 || n == 0x2029
  }

  predicate NotLineBreak(c: char) { !IsLineBreak(c) }

  predicate All(s: string, p: char -> bool)
  {
    forall k :: 0 <= k < |s| ==> p(s[k])
  }

  predicate NoneOf(s: string, p: char -> bool)
  {
    forall k :: 0 <= k < |s| ==> !p(s[k])
  }

  /** The end of the run of characters satisfying `p` that starts at `from`. */
  function SkipWhile(s: string, from: nat, p: char -> bool): (e: nat)
    requires from <= |s|
    ensures from <= e <= |s|
    ensures forall k :: from <= k < e ==> p(s[k])
    ensures e < |s| ==> !p(s[e])
    decreases |s| - from
  {
    if from == |s| || !p(s[from]) then from else SkipWhile(s, from + 1, p)
  }

  /** A run of `p`-characters is skipped exactly to its end. */
  lemma {:induction false} SkipWhileRun(s: string, from: nat, n: nat, p: char -> bool)
    requires from + n <= |s|
    requires forall k :: from <= k < from + n ==> p(s[k])
    requires from + n < |s| ==> !p(s[from + n])
    ensures SkipWhile(s, from, p) == from + n
    decreases n
  {
    if n > 0 {
      SkipWhileRun(s, from + 1, n - 1, p);
    }
  }

  // ---------------------------------------------------------------------------
  // Decimal numbers

  function DigitValue(c: char): nat
    requires IsDigit(c)
  {
    c as int - '0' as int
  }

  function DigitChar(d: nat): (c: char)
    requires d < 10
    ensures IsDigit(c) && DigitValue(c) == d
  {
    ('0' as int + d) as char
  }

  /** `int(ds)` for a string of ASCII digits (leading zeros allowed). */
  function DecimalValue(ds: string): nat
    requires All(ds, IsDigit)
  {
    if |ds| == 0 then 0 else DecimalValue(ds[..|ds| - 1]) * 10 + DigitValue(ds[|ds| - 1])
  }

  /** `str(n)`: the shortest decimal spelling of `n`. */
  function DecimalString(n: nat): (s: string)
    ensures |s| > 0 && All(s, IsDigit)
    ensures |s| > 1 ==> s[0] != '0'
  {
    if n < 10 then [DigitChar(n)] else DecimalString(n / 10) + [DigitChar(n % 10)]
  }

  lemma {:induction false} DecimalRoundTrip(n: nat)
    ensures DecimalValue(DecimalString(n)) == n
  {
    var s := DecimalString(n);
    if n >= 10 {
      DecimalRoundTrip(n / 10);
      assert s[..|s| - 1] == DecimalString(n / 10);
    }
  }

  // ---------------------------------------------------------------------------
  // _parse_number

  /** `re.search(r'([0-9]+)', text)`: the value of the first maximal run of digits. */
  function FirstNumber(text: string): (r: Option<nat>)
    ensures r.None? <==> NoneOf(text, IsDigit)
    ensures r.Some? ==> exists i, e :: (0 <= i < e <= |text|
      && NoneOf(text[..i], IsDigit) && All(text[i..e], IsDigit)
      && (e < |text| ==> !IsDigit(text[e])) && r.value == DecimalValue(text[i..e]))
  {
    var i := SkipWhile(text, 0, NotDigit);
    if i == |text| then None
    else
      var e := SkipWhile(text, i, IsDigit);
      assert NoneOf(text[..i], IsDigit);
      Some(DecimalValue(text[i..e]))
  }

  /** `_parse_number(key, text, img)`: `{key: n}` for the first number in the text, else `{key: None}`. */
  function ParseNumber(key: string, text: string): (r: Record)
    ensures r.Keys == {key}
    ensures r[key].Null? <==> NoneOf(text, IsDigit)
    ensures r[key].Int? ==> r[key].n >= 0
    ensures r[key].Int? || r[key].Null?
    ensures r[key].Int? ==> exists i, e :: (0 <= i < e <= |text|
      && NoneOf(text[..i], IsDigit) && All(text[i..e], IsDigit)
      && (e < |text| ==> !IsDigit(text[e])) && r[key].n == DecimalValue(text[i..e]))
  {
    var m := FirstNumber(text);
    map[key := if m.None? then Null else Int(m.value)]
  }

  /** A number after digit-free text, followed by anything that does not continue
      it, is the one that is parsed. */
  lemma ParseNumberFinds(key: string, prefix: string, n: nat, suffix: string)
    requires NoneOf(prefix, IsDigit)
    requires suffix == [] || !IsDigit(suffix[0])
    ensures ParseNumber(key, prefix + DecimalString(n) + suffix) == map[key := Int(n)]
  {
    var d := DecimalString(n);
    var t := prefix + d + suffix;
    SkipWhileRun(t, 0, |prefix|, NotDigit);
    SkipWhileRun(t, |prefix|, |d|, IsDigit);
    assert t[|prefix|..|prefix| + |d|] == d;
    DecimalRoundTrip(n);
  }

  /** Round trip: parsing the decimal spelling of `n` gives `n`. */
  lemma ParseNumberRoundTrip(key: string, n: nat)
    ensures ParseNumber(key, DecimalString(n)) == map[key := Int(n)]
  {
    ParseNumberFinds(key, "", n, "");
    assert "" + DecimalString(n) + "" == DecimalString(n);
  }

  // ---------------------------------------------------------------------------
  // _parse_vehicle_durability

  /** The literal `lit` occurs in `s` at position `p`. */
  predicate HasAt(s: string, p: nat, lit: string)
  {
    p + |lit| <= |s| && s[p..p + |lit|] == lit
  }

  /** `lit` at `p` followed by at least one whitespace character: the position
      after that whitespace run, or `None`. */
  function LiteralThenSpaces(s: string, p: nat, lit: string): (r: Option<nat>)
    requires p <= |s|
    ensures r.Some? ==> HasAt(s, p, lit) && p + |lit| < r.value <= |s|
  {
    if !HasAt(s, p, lit) then None
    else
      var a := SkipWhile(s, p + |lit|, IsSpace);
      if a == p + |lit| then None else Some(a)
  }

  /** The phrase text `vehicle<w1>durability<w2>by<w3><d><suffix>`. */
  function PhraseText(w1: string, w2: string, w3: string, d: string, suffix: string): string
  {
    "vehicle" + (w1 + ("durability" + (w2 + ("by" + (w3 + (d + suffix))))))
  }

  /** What the pattern asks of the pieces of a phrase: non-empty whitespace runs,
      a non-empty digit run, and no digit right after it. */
  predicate PhrasePieces(w1: string, w2: string, w3: string, d: string, suffix: string)
  {
    && |w1| > 0 && |w2| > 0 && |w3| > 0 && |d| > 0
    && All(w1, IsSpace) && All(w2, IsSpace) && All(w3, IsSpace) && All(d, IsDigit)
    && (suffix == [] || !IsDigit(suffix[0]))
  }

  /** `vehicle\s+durability\s+by\s+` matched at position `p`: where the digits
      must start, or `None`. */
  function PhraseStart(s: string, p: nat): (r: Option<nat>)
    requires p <= |s|
    ensures r.Some? ==> HasAt(s, p, "vehicle") && p + 22 <= r.value <= |s|
  {
    var a := LiteralThenSpaces(s, p, "vehicle");
    if a.None? then None
    else
      var b := LiteralThenSpaces(s, a.value, "durability");
      if b.None? then None
      else LiteralThenSpaces(s, b.value, "by")
  }

  /** `([0-9]+)` matched at position `c`: the number the maximal digit run spells. */
  function DigitsAt(s: string, c: nat): (r: Option<nat>)
    requires c <= |s|
    ensures r.Some? <==> c < |s| && IsDigit(s[c])
  {
    var e := SkipWhile(s, c, IsDigit);
    if e == c then None else Some(DecimalValue(s[c..e]))
  }

  /** `vehicle\s+durability\s+by\s+([0-9]+)` matched at position `p` (case-sensitive):
      the captured number, or `None`. Each `\s+` and the `[0-9]+` take a maximal run,
      since the character that must follow a run can never belong to it. */
  function MatchPhraseAt(s: string, p: nat): (r: Option<nat>)
    requires p <= |s|
    ensures r.Some? ==> HasAt(s, p, "vehicle")
  {
    var c := PhraseStart(s, p);
    if c.None? then None else DigitsAt(s, c.value)
  }

  /** `s` holds `lit` at `p`, followed by a non-empty run of whitespace ending at `a`. */
  predicate Stage(s: string, p: nat, lit: string, a: nat)
  {
    p + |lit| < a <= |s| && s[p..p + |lit|] == lit && All(s[p + |lit|..a], IsSpace)
  }

  /** What `LiteralThenSpaces` matched is a stage, and it stops at a non-space. */
  lemma LiteralThenSpacesRun(s: string, p: nat, lit: string)
    requires p <= |s| && LiteralThenSpaces(s, p, lit).Some?
    ensures var a := LiteralThenSpaces(s, p, lit).value;
      Stage(s, p, lit, a) && (a < |s| ==> !IsSpace(s[a]))
  {
  }

  /** Soundness of the matcher: a number is returned only where the text from `p`
      on is the phrase, and it is the number the phrase's digits spell. */
  lemma MatchPhraseSound(s: string, p: nat)
    requires p <= |s| && MatchPhraseAt(s, p).Some?
    ensures exists w1, w2, w3, d, suffix :: (s[p..] == PhraseText(w1, w2, w3, d, suffix)
      && PhrasePieces(w1, w2, w3, d, suffix) && MatchPhraseAt(s, p).value == DecimalValue(d))
  {
    var a, b, c := StartStages(s, p);
    var e := DigitsRun(s, c);
    PhraseAt(s, p, a, b, c, e);
  }

  /** The three stages `PhraseStart` matched. */
  lemma StartStages(s: string, p: nat) returns (a: nat, b: nat, c: nat)
    requires p <= |s| && PhraseStart(s, p).Some?
    ensures Stage(s, p, "vehicle", a) && Stage(s, a, "durability", b) && Stage(s, b, "by", c)
    ensures PhraseStart(s, p) == Some(c)
  {
    a := LiteralThenSpaces(s, p, "vehicle").value;
    b := LiteralThenSpaces(s, a, "durability").value;
    c := LiteralThenSpaces(s, b, "by").value;
    LiteralThenSpacesRun(s, p, "vehicle");
    LiteralThenSpacesRun(s, a, "durability");
    LiteralThenSpacesRun(s, b, "by");
  }

  /** The digit run `DigitsAt` read, and its value. */
  lemma DigitsRun(s: string, c: nat) returns (e: nat)
    requires c <= |s| && DigitsAt(s, c).Some?
    ensures c < e <= |s| && All(s[c..e], IsDigit) && (e < |s| ==> !IsDigit(s[e]))
    ensures DigitsAt(s, c) == Some(DecimalValue(s[c..e]))
  {
    e := SkipWhile(s, c, IsDigit);
  }

  /** The pieces a successful match consumed make up the text from `p` on. */
  lemma PhraseAt(s: string, p: nat, a: nat, b: nat, c: nat, e: nat)
    requires Stage(s, p, "vehicle", a) && Stage(s, a, "durability", b) && Stage(s, b, "by", c)
    requires c < e <= |s| && All(s[c..e], IsDigit) && (e < |s| ==> !IsDigit(s[e]))
    ensures s[p..] == PhraseText(s[p + 7..a], s[a + 10..b], s[b + 2..c], s[c..e], s[e..])
    ensures PhrasePieces(s[p + 7..a], s[a + 10..b], s[b + 2..c], s[c..e], s[e..])
  {
    StagesConcat(s, p, "vehicle", a, "durability", b, "by", c, e);
    assert s[e..] != [] ==> s[e..][0] == s[e];
  }

  /** Three consecutive stages and what follows them make up the text from `p` on. */
  lemma StagesConcat(s: string, p: nat, l1: string, a: nat, l2: string, b: nat, l3: string, c: nat, e: nat)
    requires Stage(s, p, l1, a) && Stage(s, a, l2, b) && Stage(s, b, l3, c) && c <= e <= |s|
    ensures s[p..] == l1 + (s[p + |l1|..a] + (l2 + (s[a + |l2|..b] + (l3 + (s[b + |l3|..c] + (s[c..e] + s[e..]))))))
  {
    JoinAt(s, c, e);
    JoinAt(s, b + |l3|, c);
    JoinAt(s, b, b + |l3|);
    JoinAt(s, a + |l2|, b);
    JoinAt(s, a, a + |l2|);
    JoinAt(s, p + |l1|, a);
    JoinAt(s, p, p + |l1|);
  }

  /** The text from `i` on is the slice up to `j` followed by the text from `j` on. */
  lemma JoinAt(s: string, i: nat, j: nat)
    requires i <= j <= |s|
    ensures s[i..] == s[i..j] + s[j..]
  {
  }

  /** Text from `i` on that reads `x + y` holds `x` at `i` and then `y`. */
  lemma SplitFront(s: string, i: nat, x: string, y: string)
    requires i <= |s| && s[i..] == x + y
    ensures i + |x| <= |s| && s[i..i + |x|] == x && s[i + |x|..] == y
  {
    assert s[i..i + |x|] == (x + y)[..|x|];
    assert s[i + |x|..] == (x + y)[|x|..];
  }

  /** The match at `p`, or `None` past the end of `s`. */
  function MatchAt(s: string, p: nat): Option<nat>
  {
    if p <= |s| then MatchPhraseAt(s, p) else None
  }

  /** The first defined `m(p)` for `p` in `[from, last]`. */
  function Leftmost(m: nat -> Option<nat>, from: nat, last: nat): (r: Option<nat>)
    ensures r.None? <==> forall p :: from <= p <= last ==> m(p).None?
    ensures r.Some? ==> exists p :: (from <= p <= last && m(p) == r
      && forall q :: from <= q < p ==> m(q).None?)
    decreases last + 1 - from
  {
    if from > last then None
    else if m(from).Some? then m(from)
    else Leftmost(m, from + 1, last)
  }

  /** `re.search`: the match that starts leftmost. */
  function SearchPhrase(s: string): (r: Option<nat>)
    ensures r.None? <==> forall p :: 0 <= p <= |s| ==> MatchPhraseAt(s, p).None?
    ensures r.Some? ==> exists p :: (0 <= p <= |s| && MatchPhraseAt(s, p) == r
      && forall q :: 0 <= q < p ==> MatchPhraseAt(s, q).None?)
  {
    var m := (p: nat) => MatchAt(s, p);
    var r := Leftmost(m, 0, |s|);
    assert forall p :: 0 <= p <= |s| ==> m(p) == MatchPhraseAt(s, p);
    r
  }

  /** `_parse_vehicle_durability(key, text, img)`. */
  function ParseVehicleDurability(key: string, text: string): (r: Record)
    ensures r.Keys == {key}
    ensures r[key].Null? <==> forall p :: 0 <= p <= |text| ==> MatchPhraseAt(text, p).None?
    ensures r[key].Int? ==> exists p :: (0 <= p <= |text| && MatchPhraseAt(text, p) == Some(r[key].n)
      && forall q :: 0 <= q < p ==> MatchPhraseAt(text, q).None?)
    ensures r[key].Int? || r[key].Null?
  {
    var m := SearchPhrase(text);
    map[key := if m.None? then Null else Int(m.value)]
  }

  /** A number is read only from a phrase `vehicle`, whitespace, `durability`,
      whitespace, `by`, whitespace, digits somewhere in the text. */
  lemma ParsedNumberHasPhrase(key: string, text: string)
    requires ParseVehicleDurability(key, text)[key].Int?
    ensures exists p, w1, w2, w3, d, suffix :: (0 <= p <= |text| && text[p..] == PhraseText(w1, w2, w3, d, suffix)
      && PhrasePieces(w1, w2, w3, d, suffix) && ParseVehicleDurability(key, text)[key].n == DecimalValue(d))
  {
    var n := ParseVehicleDurability(key, text)[key].n;
    var p :| 0 <= p <= |text| && MatchPhraseAt(text, p) == Some(n);
    MatchPhraseSound(text, p);
  }

  /** A text with no lower-case `v` holds no match. */
  lemma NoLowerVNoMatch(text: string, p: nat)
    requires forall i :: 0 <= i < |text| ==> text[i] != 'v'
    requires p <= |text|
    ensures MatchPhraseAt(text, p).None?
  {
    if p + 7 <= |text| {
      assert text[p..p + 7][0] == text[p];
    }
  }

  /** With no match anywhere, the field is `None`. */
  lemma NoMatchNull(key: string, text: string)
    requires forall p :: 0 <= p <= |text| ==> MatchPhraseAt(text, p).None?
    ensures ParseVehicleDurability(key, text) == map[key := Null]
  {
    var r := ParseVehicleDurability(key, text);
    assert r[key] == Null;
  }

  /** The pattern carries no IGNORECASE flag: the phrase with capital letters
      yields no number. */
  lemma CapitalisedPhraseIgnored(key: string)
    ensures ParseVehicleDurability(key, "Vehicle Durability by 25") == map[key := Null]
  {
    var s := "Vehicle Durability by 25";
    assert forall i :: 0 <= i < |s| ==> s[i] != 'v';
    forall p | 0 <= p <= |s| ensures MatchPhraseAt(s, p).None? {
      NoLowerVNoMatch(s, p);
    }
    NoMatchNull(key, s);
  }

  /** `lit` followed by the non-empty whitespace `ws` and then a non-space character. */
  lemma LiteralThenSpacesAt(s: string, p: nat, lit: string, ws: string)
    requires p + |lit| + |ws| < |s|
    requires s[p..p + |lit|] == lit && s[p + |lit|..p + |lit| + |ws|] == ws
    requires |ws| > 0 && All(ws, IsSpace) && !IsSpace(s[p + |lit| + |ws|])
    ensures LiteralThenSpaces(s, p, lit) == Some(p + |lit| + |ws|)
  {
    SkipWhileRun(s, p + |lit|, |ws|, IsSpace);
  }

  /** `lit` and a run of whitespace after the prefix `pre` of `s`. */
  lemma LiteralThenSpacesConcat(s: string, pre: string, lit: string, ws: string, rest: string)
    requires s == pre + lit + ws + rest
    requires |ws| > 0 && All(ws, IsSpace) && |rest| > 0 && !IsSpace(rest[0])
    ensures LiteralThenSpaces(s, |pre|, lit) == Some(|pre| + |lit| + |ws|)
  {
    var p := |pre|;
    assert s[p..p + |lit|] == lit;
    assert s[p + |lit|..p + |lit| + |ws|] == ws;
    assert s[p + |lit| + |ws|] == rest[0];
    LiteralThenSpacesAt(s, p, lit, ws);
  }

  /** The three stages give where the digits start. */
  lemma StagesStart(s: string, p: nat, a: nat, b: nat, c: nat)
    requires p <= |s| && LiteralThenSpaces(s, p, "vehicle") == Some(a)
    requires a <= |s| && LiteralThenSpaces(s, a, "durability") == Some(b)
    requires b <= |s| && LiteralThenSpaces(s, b, "by") == Some(c)
    ensures PhraseStart(s, p) == Some(c)
  {
  }

  /** A maximal digit run `d` at `c` is read as its decimal value. */
  lemma DigitRunAt(s: string, c: nat, d: string)
    requires 0 < |d| && c + |d| <= |s| && SkipWhile(s, c, IsDigit) == c + |d| && s[c..c + |d|] == d
    ensures DigitsAt(s, c) == Some(DecimalValue(d))
  {
  }

  /** Where each piece of `pre + l1 + w1 + l2 + w2 + l3 + w3 + d + suffix` sits. */
  lemma ConcatLayout(s: string, i: nat, l1: string, w1: string, l2: string, w2: string,
                     l3: string, w3: string, d: string, suffix: string) returns (a: nat, b: nat, c: nat)
    requires i <= |s| && s[i..] == l1 + (w1 + (l2 + (w2 + (l3 + (w3 + (d + suffix))))))
    ensures a == i + |l1| + |w1| && b == a + |l2| + |w2| && c == b + |l3| + |w3|
    ensures c + |d| + |suffix| == |s|
    ensures s[i..i + |l1|] == l1 && s[i + |l1|..a] == w1
    ensures s[a..a + |l2|] == l2 && s[a + |l2|..b] == w2
    ensures s[b..b + |l3|] == l3 && s[b + |l3|..c] == w3
    ensures s[c..c + |d|] == d && s[c + |d|..] == suffix
  {
    a := i + |l1| + |w1|;
    b := a + |l2| + |w2|;
    c := b + |l3| + |w3|;
    SplitFront(s, i, l1, w1 + (l2 + (w2 + (l3 + (w3 + (d + suffix))))));
    SplitFront(s, i + |l1|, w1, l2 + (w2 + (l3 + (w3 + (d + suffix)))));
    SplitFront(s, a, l2, w2 + (l3 + (w3 + (d + suffix))));
    SplitFront(s, a + |l2|, w2, l3 + (w3 + (d + suffix)));
    SplitFront(s, b, l3, w3 + (d + suffix));
    SplitFront(s, b + |l3|, w3, d + suffix);
    SplitFront(s, c, d, suffix);
  }

  /** The phrase text matches where it starts, with the number its digits spell. */
  lemma PhraseMatch(pre: string, w1: string, w2: string, w3: string, d: string, suffix: string)
    requires PhrasePieces(w1, w2, w3, d, suffix)
    ensures MatchPhraseAt(pre + PhraseText(w1, w2, w3, d, suffix), |pre|) == Some(DecimalValue(d))
  {
    var s := pre + PhraseText(w1, w2, w3, d, suffix);
    SplitFront(s, 0, pre, PhraseText(w1, w2, w3, d, suffix));
    var a, b, c := ConcatLayout(s, |pre|, "vehicle", w1, "durability", w2, "by", w3, d, suffix);
    assert s[c] == s[c..c + |d|][0] == d[0];
    assert !IsSpace("durability"[0]) && !IsSpace("by"[0]);
    StagesAt(s, |pre|, "vehicle", w1, a, "durability", w2, b, "by", w3, c);
    StagesStart(s, |pre|, a, b, c);
    LaidOutDigits(s, c, d, suffix);
  }

  /** Three literals, each followed by a non-empty whitespace run that ends at a
      non-space, are matched stage by stage. */
  lemma StagesAt(s: string, i: nat, l1: string, w1: string, a: nat, l2: string, w2: string, b: nat,
                 l3: string, w3: string, c: nat)
    requires |w1| > 0 && |w2| > 0 && |w3| > 0 && All(w1, IsSpace) && All(w2, IsSpace) && All(w3, IsSpace)
    requires |l2| > 0 && !IsSpace(l2[0]) && |l3| > 0 && !IsSpace(l3[0])
    requires a == i + |l1| + |w1| && b == a + |l2| + |w2| && c == b + |l3| + |w3|
    requires c < |s| && !IsSpace(s[c])
    requires s[i..i + |l1|] == l1 && s[i + |l1|..a] == w1
    requires s[a..a + |l2|] == l2 && s[a + |l2|..b] == w2
    requires s[b..b + |l3|] == l3 && s[b + |l3|..c] == w3
    ensures LiteralThenSpaces(s, i, l1) == Some(a)
    ensures LiteralThenSpaces(s, a, l2) == Some(b)
    ensures LiteralThenSpaces(s, b, l3) == Some(c)
  {
    assert s[a] == s[a..a + |l2|][0];
    LiteralThenSpacesAt(s, i, l1, w1);
    assert s[b] == s[b..b + |l3|][0];
    LiteralThenSpacesAt(s, a, l2, w2);
    LiteralThenSpacesAt(s, b, l3, w3);
  }

  /** A digit run `d` at `c`, not followed by a digit, is read as its value. */
  lemma LaidOutDigits(s: string, c: nat, d: string, suffix: string)
    requires |d| > 0 && All(d, IsDigit) && (suffix == [] || !IsDigit(suffix[0]))
    requires c + |d| + |suffix| == |s| && s[c..c + |d|] == d && s[c + |d|..] == suffix
    ensures DigitsAt(s, c) == Some(DecimalValue(d))
  {
    assert c + |d| < |s| ==> s[c + |d|] == s[c + |d|..][0];
    SkipWhileRun(s, c, |d|, IsDigit);
    DigitRunAt(s, c, d);
  }

  /** `re.search` returns the match at `p` when no match starts before it. */
  lemma FirstMatchParsed(key: string, s: string, p: nat, n: nat)
    requires p <= |s| && MatchPhraseAt(s, p) == Some(n)
    requires forall q :: 0 <= q < p ==> MatchPhraseAt(s, q).None?
    ensures ParseVehicleDurability(key, s) == map[key := Int(n)]
  {
    var r := ParseVehicleDurability(key, s);
    assert r[key].Int?;
    var p' :| 0 <= p' <= |s| && MatchPhraseAt(s, p') == Some(r[key].n)
      && forall q :: 0 <= q < p' ==> MatchPhraseAt(s, q).None?;
    assert p' == p;
  }

  /** No occurrence of `vehicle` lies inside `pre`. */
  predicate NoVehicle(pre: string)
  {
    forall q :: 0 <= q < |pre| ==> !HasAt(pre, q, "vehicle")
  }

  /** An occurrence of `vehicle` starting inside such a prefix and running into a
      text that starts with `vehicle` would need a second `v` inside `vehicle`. */
  lemma NoVehicleAcross(pre: string, t: string, q: nat)
    requires NoVehicle(pre) && HasAt(t, 0, "vehicle") && q < |pre|
    ensures !HasAt(pre + t, q, "vehicle")
  {
    var s := pre + t;
    if q + 7 <= |pre| {
      assert s[q..q + 7] == pre[q..q + 7];
      assert !HasAt(pre, q, "vehicle");
      assert !HasAt(s, q, "vehicle");
    } else if q + 7 <= |s| {
      var k := |pre| - q;
      assert t[0] == t[0..7][0] == 'v';
      assert s[q..q + 7][k] == s[|pre|] == 'v';
      assert "vehicle"[k] != 'v' by {
        assert k == 1 || k == 2 || k == 3 || k == 4 || k == 5 || k == 6;
      }
      assert !HasAt(s, q, "vehicle");
    }
  }

  lemma PhraseTextStart(w1: string, w2: string, w3: string, d: string, suffix: string)
    ensures HasAt(PhraseText(w1, w2, w3, d, suffix), 0, "vehicle")
  {
    assert PhraseText(w1, w2, w3, d, suffix) == "vehicle" + (w1 + "durability" + w2 + "by" + w3 + d + suffix);
  }

  /** No match starts inside such a prefix. */
  lemma NoMatchInPrefix(pre: string, t: string, q: nat)
    requires NoVehicle(pre) && HasAt(t, 0, "vehicle") && q < |pre|
    ensures MatchPhraseAt(pre + t, q).None?
  {
    NoVehicleAcross(pre, t, q);
  }

  /** The phrase after any text without `vehicle` in it yields its number, as on
      the overlay line `Increases vehicle durability by 25%`. */
  lemma PhraseParsed(key: string, pre: string, w1: string, w2: string, w3: string, n: nat, suffix: string)
    requires NoVehicle(pre)
    requires |w1| > 0 && |w2| > 0 && |w3| > 0
    requires All(w1, IsSpace) && All(w2, IsSpace) && All(w3, IsSpace)
    requires suffix == [] || !IsDigit(suffix[0])
    ensures ParseVehicleDurability(key, pre + PhraseText(w1, w2, w3, DecimalString(n), suffix)) == map[key := Int(n)]
  {
    var d := DecimalString(n);
    var t := PhraseText(w1, w2, w3, d, suffix);
    assert PhrasePieces(w1, w2, w3, d, suffix);
    PhraseMatch(pre, w1, w2, w3, d, suffix);
    DecimalRoundTrip(n);
    PhraseTextStart(w1, w2, w3, d, suffix);
    forall q | 0 <= q < |pre| ensures MatchPhraseAt(pre + t, q).None? {
      NoMatchInPrefix(pre, t, q);
    }
    FirstMatchParsed(key, pre + t, |pre|, n);
  }

  /** A text without a lower-case `v` holds no `vehicle`. */
  lemma NoLowerVNoVehicle(pre: string)
    requires forall i :: 0 <= i < |pre| ==> pre[i] != 'v'
    ensures NoVehicle(pre)
  {
    forall q | 0 <= q < |pre| ensures !HasAt(pre, q, "vehicle") {
      if q + 7 <= |pre| {
        assert pre[q..q + 7][0] == pre[q];
      }
    }
  }

  /** The overlay's wording, with words before the phrase and a percent sign after it. */
  lemma OverlayLineParsed(key: string)
    ensures ParseVehicleDurability(key, "Increases vehicle durability by 25%") == map[key := Int(25)]
  {
    var pre := "Increases ";
    assert forall i :: 0 <= i < |pre| ==> pre[i] != 'v';
    NoLowerVNoVehicle(pre);
    assert DecimalString(25) == "25" by {
      assert DecimalString(2) == [DigitChar(2)] == "2";
      assert DigitChar(5) == '5';
    }
    PhraseParsed(key, pre, " ", " ", " ", 25, "%");
    OverlayText();
  }

  lemma OverlayText()
    ensures "Increases " + PhraseText(" ", " ", " ", "25", "%") == "Increases vehicle durability by 25%"
  {
  }

  // ---------------------------------------------------------------------------
  // _parse_name_category

  /** `s[from..]` up to its first line boundary. */
  function LineEnd(s: string, from: nat): (e: nat)
    requires from <= |s|
    ensures from <= e <= |s|
  {
    SkipWhile(s, from, NotLineBreak)
  }

  /** `str.splitlines()`. */
  function SplitLines(s: string): (lines: seq<string>)
    ensures forall i :: 0 <= i < |lines| ==> NoneOf(lines[i], IsLineBreak)
    decreases |s|
  {
    if |s| == 0 then []
    else
      var e := LineEnd(s, 0);
      if e == |s| then [s]
      else
        var next := if s[e] == '\r' && e + 1 < |s| && s[e + 1] == '\n' then e + 2 else e + 1;
        [s[..e]] + SplitLines(s[next..])
  }

  /** A line boundary as `str.splitlines()` consumes it: `\r\n`, or one boundary character. */
  predicate IsSeparator(b: string)
  {
    b == "\r\n" || (|b| == 1 && IsLineBreak(b[0]))
  }

  /** `lines[0] + seps[0] + lines[1] + seps[1] + ...`. */
  function Rejoin(lines: seq<string>, seps: seq<string>): string
    requires |lines| == |seps|
  {
    if lines == [] then [] else lines[0] + seps[0] + Rejoin(lines[1..], seps[1..])
  }

  /** `seps` are the boundaries after `lines`: each is a boundary, except that the
      last may be empty (text without a final boundary) provided its line is not
      empty (a final boundary yields no empty last line), and a `\r` is never
      followed by an empty line ended by `\n` (that would have been one `\r\n`). */
  ghost predicate Separates(lines: seq<string>, seps: seq<string>)
  {
    && |seps| == |lines|
    && (forall i :: 0 <= i < |seps| ==> IsSeparator(seps[i]) || (i == |seps| - 1 && seps[i] == []))
    && (|seps| > 0 && seps[|seps| - 1] == [] ==> lines[|lines| - 1] != [])
    && (forall i, j :: 0 <= i && j == i + 1 && j < |seps| ==> !(seps[i] == "\r" && lines[j] == [] && seps[j] == "\n"))
  }

  /** The lines `SplitLines` returns, each followed by the boundary it was cut at,
      give back the text. */
  lemma SplitLinesRejoin(s: string)
    ensures exists seps :: Separates(SplitLines(s), seps) && Rejoin(SplitLines(s), seps) == s
  {
    var seps := SplitSeparators(s);
  }

  /** The boundaries `SplitLines` cut `s` at. */
  lemma {:induction false} SplitSeparators(s: string) returns (seps: seq<string>)
    ensures Separates(SplitLines(s), seps) && Rejoin(SplitLines(s), seps) == s
    decreases |s|
  {
    if |s| == 0 {
      seps := [];
    } else if LineEnd(s, 0) == |s| {
      seps := [[]];
      assert SplitLines(s) == [s];
      assert Rejoin([s], seps) == s + [] + Rejoin([], []);
    } else {
      var e := LineEnd(s, 0);
      var next := SplitCut(s);
      var seps' := SplitSeparators(s[next..]);
      RejoinStep(s, e, next, SplitLines(s[next..]), seps');
      seps := [s[e..next]] + seps';
    }
  }

  /** Where `SplitLines` resumes after cutting at the first boundary, with what it
      knows of that boundary. */
  lemma SplitCut(s: string) returns (next: nat)
    requires LineEnd(s, 0) < |s|
    ensures var e := LineEnd(s, 0);
      && e < next <= |s| && IsSeparator(s[e..next])
      && (s[e..next] == "\r" ==> next == |s| || s[next] != '\n')
      && SplitLines(s) == [s[..e]] + SplitLines(s[next..])
  {
    var e := LineEnd(s, 0);
    next := if s[e] == '\r' && e + 1 < |s| && s[e + 1] == '\n' then e + 2 else e + 1;
  }

  /** One more line and its boundary in front of a rejoined text. */
  lemma RejoinStep(s: string, e: nat, next: nat, tail: seq<string>, seps: seq<string>)
    requires e < next <= |s| && IsSeparator(s[e..next])
    requires s[e..next] == "\r" ==> next == |s| || s[next] != '\n'
    requires Separates(tail, seps) && Rejoin(tail, seps) == s[next..]
    ensures Separates([s[..e]] + tail, [s[e..next]] + seps)
    ensures Rejoin([s[..e]] + tail, [s[e..next]] + seps) == s
  {
    var rest := s[next..];
    assert |tail| > 0 ==> rest == tail[0] + seps[0] + Rejoin(tail[1..], seps[1..]);
    SeparatesCons(s[..e], tail, s[e..next], seps);
    var lines, seps' := [s[..e]] + tail, [s[e..next]] + seps;
    assert lines[1..] == tail && seps'[1..] == seps;
    assert s == s[..e] + s[e..next] + rest;
  }

  lemma SeparatesCons(line: string, lines: seq<string>, sep: string, seps: seq<string>)
    requires Separates(lines, seps) && IsSeparator(sep)
    requires sep == "\r" && |lines| > 0 ==> !(lines[0] == [] && seps[0] == "\n")
    ensures Separates([line] + lines, [sep] + seps)
  {
    var ls, ss := [line] + lines, [sep] + seps;
    forall i, j | 0 <= i && j == i + 1 && j < |ss|
      ensures !(ss[i] == "\r" && ls[j] == [] && ss[j] == "\n")
    {
      if i > 0 {
        assert ss[i] == seps[i - 1] && ls[j] == lines[j - 1] && ss[j] == seps[j - 1];
      }
    }
    forall i | 0 <= i < |ss| ensures IsSeparator(ss[i]) || (i == |ss| - 1 && ss[i] == []) {
      if i > 0 {
        assert ss[i] == seps[i - 1];
      }
    }
  }

  /** The converse of `SplitLinesRejoin`: any cut of `s` into boundary-free lines
      and the boundaries after them is the one `SplitLines` makes. */
  lemma {:induction false} SplitLinesUnique(s: string, lines: seq<string>, seps: seq<string>)
    requires forall i :: 0 <= i < |lines| ==> NoneOf(lines[i], IsLineBreak)
    requires Separates(lines, seps) && Rejoin(lines, seps) == s
    ensures SplitLines(s) == lines
    decreases |lines|
  {
    if lines != [] {
      var t := Rejoin(lines[1..], seps[1..]);
      assert s == lines[0] + seps[0] + t;
      if seps[0] == [] {
        assert |lines| == 1 && s == lines[0];
        SplitOneLine(lines[0]);
      } else {
        SeparatesTail(lines, seps);
        if seps[0] == "\r" && t != [] {
          assert lines[1..] != [];
          NoNewlineAfter(lines, seps);
        }
        SplitAtSeparator(lines[0], seps[0], t);
        SplitLinesUnique(t, lines[1..], seps[1..]);
      }
    }
  }

  /** Dropping the first line keeps the cut well formed. */
  lemma SeparatesTail(lines: seq<string>, seps: seq<string>)
    requires forall i :: 0 <= i < |lines| ==> NoneOf(lines[i], IsLineBreak)
    requires Separates(lines, seps) && lines != []
    ensures forall i :: 0 <= i < |lines[1..]| ==> NoneOf(lines[1..][i], IsLineBreak)
    ensures Separates(lines[1..], seps[1..])
  {
    var rest, seps' := lines[1..], seps[1..];
    forall i | 0 <= i < |seps'| ensures IsSeparator(seps'[i]) || (i == |seps'| - 1 && seps'[i] == []) {
      assert seps'[i] == seps[i + 1];
    }
    forall i, j | 0 <= i && j == i + 1 && j < |seps'|
      ensures !(seps'[i] == "\r" && rest[j] == [] && seps'[j] == "\n")
    {
      assert seps'[i] == seps[i + 1] && rest[j] == lines[j + 1] && seps'[j] == seps[j + 1];
    }
  }

  /** After a lone `\r` boundary, the rest of a well-formed cut does not start with `\n`. */
  lemma NoNewlineAfter(lines: seq<string>, seps: seq<string>)
    requires forall i :: 0 <= i < |lines| ==> NoneOf(lines[i], IsLineBreak)
    requires Separates(lines, seps) && |lines| > 1 && seps[0] == "\r"
    ensures var t := Rejoin(lines[1..], seps[1..]); t == [] || t[0] != '\n'
  {
    var t := Rejoin(lines[1..], seps[1..]);
    assert t == lines[1] + seps[1] + Rejoin(lines[2..], seps[2..]);
    if lines[1] == [] {
      assert !(seps[0] == "\r" && lines[1] == [] && seps[1] == "\n");
      if seps[1] != [] {
        assert t[0] == seps[1][0];
      }
    } else {
      assert t[0] == lines[1][0];
    }
  }

  /** A boundary-free line and a boundary in front of a text split off as the first
      line, unless a lone `\r` would pair with a following `\n`. */
  lemma SplitAtSeparator(line: string, sep: string, t: string)
    requires NoneOf(line, IsLineBreak) && IsSeparator(sep)
    requires sep == "\r" ==> t == [] || t[0] != '\n'
    ensures SplitLines(line + sep + t) == [line] + SplitLines(t)
  {
    var s := line + sep + t;
    var e := |line|;
    assert s[e] == sep[0];
    SkipWhileRun(s, 0, e, NotLineBreak);
    assert s[..e] == line;
    assert s[e + |sep|..] == t;
    if sep == "\r" && e + 1 < |s| {
      assert s[e + 1] == t[0];
    }
  }

  /** No line holds a line boundary. */
  predicate BreakFree(lines: seq<string>)
  {
    lines == [] || (NoneOf(lines[0], IsLineBreak) && BreakFree(lines[1..]))
  }

  /** Every line is whitespace only. */
  predicate AllBlank(lines: seq<string>)
  {
    lines == [] || (All(lines[0], IsSpace) && AllBlank(lines[1..]))
  }

  /** `"\n".join(lines)`. */
  function JoinLines(lines: seq<string>): (s: string)
    ensures |lines| > 1 ==> s != []
  {
    if lines == [] then []
    else if |lines| == 1 then lines[0]
    else lines[0] + "\n" + JoinLines(lines[1..])
  }

  /** A line and a newline in front of any text split off as the first line. */
  lemma SplitFirstLine(first: string, t: string)
    requires NoneOf(first, IsLineBreak)
    ensures SplitLines(first + "\n" + t) == [first] + SplitLines(t)
  {
    var s := first + "\n" + t;
    assert s[|first|] == '\n';
    SkipWhileRun(s, 0, |first|, NotLineBreak);
    assert s[..|first|] == first;
    assert s[|first| + 1..] == t;
  }

  /** Lines without boundaries, joined by newlines, split back into the same lines,
      provided the last one is not empty (`"a\n".splitlines()` is `["a"]`). */
  lemma {:induction false} SplitJoinLines(lines: seq<string>)
    requires BreakFree(lines)
    requires lines != [] ==> lines[|lines| - 1] != []
    ensures SplitLines(JoinLines(lines)) == lines
    decreases |lines|
  {
    if |lines| == 1 {
      SplitOneLine(lines[0]);
    } else if |lines| > 1 {
      var rest := lines[1..];
      assert |rest| > 0 && rest[|rest| - 1] == lines[|lines| - 1];
      SplitJoinLines(rest);
      SplitFirstLine(lines[0], JoinLines(rest));
    }
  }

  /** The start of the run of characters satisfying `p` that ends at `hi`,
      looking no further back than `lo`. */
  function SkipBackWhile(s: string, lo: nat, hi: nat, p: char -> bool): (j: nat)
    requires lo <= hi <= |s|
    ensures lo <= j <= hi
    ensures forall k :: j <= k < hi ==> p(s[k])
    ensures j > lo ==> !p(s[j - 1])
    decreases hi - lo
  {
    if hi > lo && p(s[hi - 1]) then SkipBackWhile(s, lo, hi - 1, p) else hi
  }

  /** `str.strip()`: the text between the leading and the trailing whitespace runs. */
  function Strip(s: string): (r: string)
    ensures r == [] || (!IsSpace(r[0]) && !IsSpace(r[|r| - 1]))
    ensures r == [] <==> All(s, IsSpace)
    ensures exists i, j :: (0 <= i <= j <= |s| && r == s[i..j] && All(s[..i], IsSpace) && All(s[j..], IsSpace))
  {
    var i := SkipWhile(s, 0, IsSpace);
    var j := SkipBackWhile(s, i, |s|, IsSpace);
    assert All(s[..i], IsSpace) && All(s[j..], IsSpace);
    assert i == j ==> All(s, IsSpace) by {
      if i == j {
        forall k | 0 <= k < |s| ensures IsSpace(s[k]) {
          if k < i { assert s[..i][k] == s[k]; }
        }
      }
    }
    s[i..j]
  }

  /** A string without whitespace at either end is its own strip. */
  lemma StripStripped(s: string)
    requires s == [] || (!IsSpace(s[0]) && !IsSpace(s[|s| - 1]))
    ensures Strip(s) == s
  {
    if s != [] {
      SkipWhileRun(s, 0, 0, IsSpace);
    }
  }

  /** Stripping a string that starts with a non-space keeps its first character. */
  lemma StripKeepsFirst(t: string)
    requires t != [] && !IsSpace(t[0])
    ensures Strip(t) != [] && Strip(t)[0] == t[0]
  {
    SkipWhileRun(t, 0, 0, IsSpace);
  }

  /** `[ln.strip() for ln in lines if ln.strip()]`. */
  function NonBlank(lines: seq<string>): (r: seq<string>)
    ensures |r| <= |lines|
    ensures forall i :: 0 <= i < |r| ==> r[i] != [] && Strip(r[i]) == r[i]
  {
    if |lines| == 0 then []
    else
      var t := Strip(lines[0]);
      StripStripped(t);
      if t != [] then [t] + NonBlank(lines[1..]) else NonBlank(lines[1..])
  }

  /** `NonBlank` works line by line: it distributes over concatenation. */
  lemma {:induction false} NonBlankAppend(a: seq<string>, b: seq<string>)
    ensures NonBlank(a + b) == NonBlank(a) + NonBlank(b)
    decreases |a|
  {
    if a == [] {
      assert a + b == b;
    } else {
      assert (a + b)[0] == a[0] && (a + b)[1..] == a[1..] + b;
      NonBlankAppend(a[1..], b);
      var t := Strip(a[0]);
      if t != [] {
        assert NonBlank(a + b) == [t] + NonBlank(a[1..] + b);
        assert [t] + (NonBlank(a[1..]) + NonBlank(b)) == [t] + NonBlank(a[1..]) + NonBlank(b);
      }
    }
  }

  /** One line is dropped when it is whitespace only, and kept stripped otherwise. */
  lemma NonBlankLine(line: string)
    ensures NonBlank([line]) == if All(line, IsSpace) then [] else [Strip(line)]
  {
    assert [line][1..] == [];
  }

  /** Whitespace-only lines all disappear. */
  lemma {:induction false} NonBlankOfBlank(lines: seq<string>)
    requires AllBlank(lines)
    ensures NonBlank(lines) == []
    decreases |lines|
  {
    if lines != [] {
      NonBlankOfBlank(lines[1..]);
    }
  }

  /** The name's noise, `[0-9\W_]`. */
  predicate NameNoise(c: char) { IsDigit(c) || !IsWordChar(c) || c == '_' }

  /** The category's noise, `[^A-Za-z0-9]`. */
  predicate CategoryNoise(c: char) { !IsAsciiAlnum(c) }

  /** `re.sub(r'^[0-9\W_]+', '', name).strip()`. */
  function CleanName(name: string): (r: string)
    ensures r == [] || IsAsciiLetter(r[0])
    ensures r == [] || !IsSpace(r[|r| - 1])
    ensures exists k :: (0 <= k <= |name| && All(name[..k], NameNoise) && (k < |name| ==> !NameNoise(name[k]))
      && r == Strip(name[k..]))
  {
    var k := SkipWhile(name, 0, NameNoise);
    assert All(name[..k], NameNoise);
    if k < |name| then StripKeepsFirst(name[k..]); Strip(name[k..]) else Strip(name[k..])
  }

  /** `re.sub(r'^[^A-Za-z0-9]+', '', category).strip()`. */
  function CleanCategory(category: string): (r: string)
    ensures r == [] || IsAsciiAlnum(r[0])
    ensures r == [] || !IsSpace(r[|r| - 1])
    ensures exists k :: (0 <= k <= |category| && All(category[..k], CategoryNoise)
      && (k < |category| ==> !CategoryNoise(category[k])) && r == Strip(category[k..]))
  {
    var k := SkipWhile(category, 0, CategoryNoise);
    assert All(category[..k], CategoryNoise);
    if k < |category| then StripKeepsFirst(category[k..]); Strip(category[k..]) else Strip(category[k..])
  }

  /** `_parse_name_category(key, text, img)`: the first two non-blank lines, cleaned. */
  function ParseNameCategory(text: string): (r: Record)
    ensures r.Keys == {"name", "category"}
    ensures r["name"] == NameField(NonBlank(SplitLines(text)))
    ensures r["category"] == CategoryField(NonBlank(SplitLines(text)))
  {
    var lines := NonBlank(SplitLines(text));
    map["name" := NameField(lines), "category" := CategoryField(lines)]
  }

  /** The name: the first line, cleaned, or `None` when there is no line. */
  function NameField(lines: seq<string>): (v: Value)
    ensures v.Null? <==> |lines| == 0
    ensures v.Str? ==> v.s == CleanName(lines[0])
  {
    if |lines| >= 1 then Str(CleanName(lines[0])) else Null
  }

  /** The category: the second line, cleaned, or `None` when there are fewer than two lines. */
  function CategoryField(lines: seq<string>): (v: Value)
    ensures v.Null? <==> |lines| < 2
    ensures v.Str? ==> |lines| >= 2 && v.s == CleanCategory(lines[1])
  {
    if |lines| >= 2 then Str(CleanCategory(lines[1])) else Null
  }

  /** Cleaning a name a second time changes nothing. */
  lemma CleanNameIdempotent(name: string)
    ensures CleanName(CleanName(name)) == CleanName(name)
  {
    CleanNameOfClean(CleanName(name));
  }

  /** Cleaning a category a second time changes nothing. */
  lemma CleanCategoryIdempotent(category: string)
    ensures CleanCategory(CleanCategory(category)) == CleanCategory(category)
  {
    CleanCategoryOfClean(CleanCategory(category));
  }

  /** A line without line boundaries splits into itself. */
  lemma SplitOneLine(line: string)
    requires line != [] && NoneOf(line, IsLineBreak)
    ensures SplitLines(line) == [line]
  {
    SkipWhileRun(line, 0, |line|, NotLineBreak);
  }

  /** Two lines joined by a newline split back into the two lines. */
  lemma SplitTwoLines(first: string, second: string)
    requires NoneOf(first, IsLineBreak)
    requires second != [] && NoneOf(second, IsLineBreak)
    ensures SplitLines(first + "\n" + second) == [first, second]
  {
    SplitFirstLine(first, second);
    SplitOneLine(second);
  }

  /** A name that is empty, or starts with a letter and ends without whitespace, is clean. */
  lemma CleanNameOfClean(name: string)
    requires name == [] || (IsAsciiLetter(name[0]) && !IsSpace(name[|name| - 1]))
    ensures CleanName(name) == name
  {
    SkipWhileRun(name, 0, 0, NameNoise);
    StripStripped(name);
  }

  /** A category that is empty, or starts with a letter or digit and ends without
      whitespace, is clean. */
  lemma CleanCategoryOfClean(category: string)
    requires category == [] || (IsAsciiAlnum(category[0]) && !IsSpace(category[|category| - 1]))
    ensures CleanCategory(category) == category
  {
    SkipWhileRun(category, 0, 0, CategoryNoise);
    StripStripped(category);
  }

  /** Two stripped, non-empty lines are both kept. */
  lemma NonBlankTwo(first: string, second: string)
    requires first != [] && !IsSpace(first[0]) && !IsSpace(first[|first| - 1])
    requires second != [] && !IsSpace(second[0]) && !IsSpace(second[|second| - 1])
    ensures NonBlank([first, second]) == [first, second]
  {
    StripStripped(first);
    StripStripped(second);
    assert [first, second][1..] == [second];
    assert [second][1..] == [];
  }

  /** A clean name line and a clean category line are read back unchanged. */
  lemma NameCategoryRoundTrip(name: string, category: string)
    requires name != [] && NoneOf(name, IsLineBreak) && IsAsciiLetter(name[0]) && !IsSpace(name[|name| - 1])
    requires category != [] && NoneOf(category, IsLineBreak) && IsAsciiAlnum(category[0])
      && !IsSpace(category[|category| - 1])
    ensures ParseNameCategory(name + "\n" + category) == map["name" := Str(name), "category" := Str(category)]
  {
    SplitTwoLines(name, category);
    NonBlankTwo(name, category);
    CleanNameOfClean(name);
    CleanCategoryOfClean(category);
    var r := ParseNameCategory(name + "\n" + category);
    assert r["name"] == Str(name) && r["category"] == Str(category);
  }

  /** Whitespace-only lines before the name and between the name and the category
      are skipped: the name is the first line holding something else, cleaned, and
      the category the next such line, cleaned; later lines do not matter. */
  lemma NameCategoryAmidBlankLines(pre: seq<string>, first: string, mid: seq<string>, second: string,
                                   post: seq<string>)
    requires BreakFree(pre + [first] + mid + [second] + post)
    requires post == [] || post[|post| - 1] != []
    requires AllBlank(pre) && AllBlank(mid)
    requires !All(first, IsSpace) && !All(second, IsSpace)
    ensures ParseNameCategory(JoinLines(pre + [first] + mid + [second] + post))
      == map["name" := Str(CleanName(Strip(first))), "category" := Str(CleanCategory(Strip(second)))]
  {
    var lines := pre + [first] + mid + [second] + post;
    LastLineNotEmpty(pre + [first] + mid, second, post);
    NonBlankAmid(pre, first, mid, second, post);
    NameCategoryOfKept(lines, Strip(first), Strip(second), NonBlank(post));
  }

  lemma LastLineNotEmpty(front: seq<string>, line: string, post: seq<string>)
    requires line != [] && (post == [] || post[|post| - 1] != [])
    ensures var lines := front + [line] + post; lines[|lines| - 1] != []
  {
    var lines := front + [line] + post;
    if post == [] {
      assert lines[|lines| - 1] == line;
    } else {
      assert lines[|lines| - 1] == post[|post| - 1];
    }
  }

  /** The fields come from the first two kept lines. */
  lemma NameCategoryOfKept(lines: seq<string>, first: string, second: string, rest: seq<string>)
    requires BreakFree(lines) && lines != [] && lines[|lines| - 1] != []
    requires NonBlank(lines) == [first, second] + rest
    ensures ParseNameCategory(JoinLines(lines))
      == map["name" := Str(CleanName(first)), "category" := Str(CleanCategory(second))]
  {
    SplitJoinLines(lines);
    var r := ParseNameCategory(JoinLines(lines));
    assert r["name"] == Str(CleanName(first)) && r["category"] == Str(CleanCategory(second));
  }

  lemma NonBlankAmid(pre: seq<string>, first: string, mid: seq<string>, second: string, post: seq<string>)
    requires AllBlank(pre) && AllBlank(mid)
    requires !All(first, IsSpace) && !All(second, IsSpace)
    ensures NonBlank(pre + [first] + mid + [second] + post) == [Strip(first), Strip(second)] + NonBlank(post)
  {
    NonBlankOfBlank(pre);
    NonBlankKeeps(pre, first);
    assert NonBlank(pre + [first]) == [Strip(first)];
    NonBlankSkipsBlank(pre + [first], mid);
    NonBlankKeeps(pre + [first] + mid, second);
    assert NonBlank(pre + [first] + mid + [second]) == [Strip(first), Strip(second)];
    NonBlankAppend(pre + [first] + mid + [second], post);
  }

  lemma NonBlankSkipsBlank(front: seq<string>, blank: seq<string>)
    requires AllBlank(blank)
    ensures NonBlank(front + blank) == NonBlank(front)
  {
    NonBlankAppend(front, blank);
    NonBlankOfBlank(blank);
  }

  lemma NonBlankKeeps(front: seq<string>, line: string)
    requires !All(line, IsSpace)
    ensures NonBlank(front + [line]) == NonBlank(front) + [Strip(line)]
  {
    NonBlankAppend(front, [line]);
    NonBlankLine(line);
  }

  /** The leading count and the space after it are dropped from a name, and so is
      the trailing space. */
  lemma CleanNameExample()
    ensures CleanName("12 Thruster Mk2 ") == "Thruster Mk2"
  {
    var name := "12 Thruster Mk2 ";
    SkipWhileRun(name, 0, 3, NameNoise);
    assert name[3..] == "Thruster Mk2 ";
    StripExample();
  }

  lemma StripExample()
    ensures Strip("Thruster Mk2 ") == "Thruster Mk2"
  {
    var t := "Thruster Mk2 ";
    SkipWhileRun(t, 0, 0, IsSpace);
    assert SkipBackWhile(t, 0, |t|, IsSpace) == |t| - 1;
    assert t[0..|t| - 1] == "Thruster Mk2";
  }
}
