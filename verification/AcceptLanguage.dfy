/**
 Reading an Accept-Language header (section 14.4 of RFC 2616): language ranges with optional weights, separated
 by commas. Spaces are allowed in more places than the standard says, and ranges may be missing.
 */
module AcceptLanguage {
  import opened Basics
  import opened PriorityList
  import opened WeightParser
  import Ranking

  /** From a language tag to a locale, if the tag names one. */
  type Canonical = string -> Option<string>

  // ----- the grammar

  ghost predicate Spaces(s: string, p: int, q: int) {
    0 <= p <= q <= |s| && forall i :: p <= i < q ==> s[i] == ' '
  }

  predicate Delimits(c: char) { c == ' ' || c == ',' || c == ';' }

  ghost predicate Tag(s: string, p: int, q: int) {
    0 <= p < q <= |s| && forall i :: p <= i < q ==> !Delimits(s[i])
  }

  /** A number between 0 and 1 with any number of digits, and its value in thousandths. */
  ghost predicate WeightText(s: string, p: int, q: int, weight: int) {
    && 0 <= p < q <= |s| && '0' <= s[p] <= '1'
    && ((q == p + 1 && weight == DigitValue(s[p]) * WEIGHT_ONE)
        || (p + 2 <= q && s[p + 1] == '.' && (forall i :: p + 2 <= i < q ==> IsDigit(s[i]))
            && weight == InThousandths(DigitValue(s[p]) as real + Fraction(s[p + 2..q])) <= WEIGHT_ONE))
  }

  /** From after the semicolon to the end of the range. */
  ghost predicate WeightPart(s: string, p: int, end: int, weight: int) {
    exists q, e, w, r :: WeightAtPlaces(s, p, q, e, w, r, end, weight)
  }

  ghost predicate WeightAtPlaces(s: string, p: int, q: int, e: int, w: int, r: int, end: int, weight: int) {
    && Spaces(s, p, q) && q < |s| && s[q] == 'q' && Spaces(s, q + 1, e) && e < |s| && s[e] == '='
    && Spaces(s, e + 1, w) && WeightText(s, w, r, weight) && Spaces(s, r, end)
  }

  /** A language range: a tag and perhaps a weight. */
  ghost predicate RangeText(canonical: Canonical, s: string, p: int, end: int, f: Field) {
    exists a, b :: RangeAtPlaces(canonical, s, p, a, b, end, f)
  }

  ghost predicate RangeAtPlaces(canonical: Canonical, s: string, p: int, a: int, b: int, end: int, f: Field) {
    && Spaces(s, p, a) && Tag(s, a, b) && b <= end && canonical(s[a..b]) == Some(f.locale)
    && ((Spaces(s, b, end) && f.weight == WEIGHT_ONE) || exists c :: Semicolon(s, b, c, end, f.weight))
  }

  ghost predicate Semicolon(s: string, b: int, c: int, end: int, weight: int) {
    Spaces(s, b, c) && c < end && c < |s| && s[c] == ';' && WeightPart(s, c + 1, end, weight)
  }

  /** The end of the element that starts at `p`: the next comma, or the end of the header. */
  function ElementEnd(s: string, p: int): (e: int)
    requires 0 <= p <= |s|
    ensures p <= e <= |s| && (e < |s| ==> s[e] == ',') && forall i :: p <= i < e ==> s[i] != ','
    decreases |s| - p
  {
    if p == |s| || s[p] == ',' then p else ElementEnd(s, p + 1)
  }

  /**
   What the elements from `p` on give: the fields of the language ranges up to the first element that is
   neither empty nor a language range, and whether there is none of that kind.
   */
  ghost predicate Parsed(canonical: Canonical, s: string, p: int, fields: seq<Field>, ok: bool)
    requires 0 <= p <= |s|
    decreases |s| - p
  {
    var e := ElementEnd(s, p);
    if Spaces(s, p, e) then
      if e == |s| then ok && fields == [] else Parsed(canonical, s, e + 1, fields, ok)
    else if exists f :: RangeText(canonical, s, p, e, f) then
      && fields != [] && RangeText(canonical, s, p, e, fields[0])
      && if e == |s| then ok && |fields| == 1 else Parsed(canonical, s, e + 1, fields[1..], ok)
    else !ok && fields == []
  }

  // ----- reading finds what the grammar says

  /** Where skipping spaces stops. */
  lemma SkipFinds(s: string, p: int, q: int)
    requires Spaces(s, p, q) && (q == |s| || s[q] != ' ')
    ensures SkipSpaces(s, p) == q
  {
  }

  function TagEnd(s: string, p: int): (q: int)
    requires 0 <= p <= |s|
    ensures p <= q <= |s| && (q < |s| ==> Delimits(s[q])) && forall i :: p <= i < q ==> !Delimits(s[i])
    decreases |s| - p
  {
    if p == |s| || Delimits(s[p]) then p else TagEnd(s, p + 1)
  }

  lemma TagEndFinds(s: string, p: int, q: int)
    requires Tag(s, p, q) && (q == |s| || Delimits(s[q]))
    ensures TagEnd(s, p) == q
  {
  }

  /** A weight that is followed by a space or a comma, or by nothing, is the one that is read. */
  lemma WeightFound(s: string, p: int, q: int, weight: int)
    requires WeightText(s, p, q, weight) && (q == |s| || s[q] == ' ' || s[q] == ',')
    ensures WeightAt(s, p) == weight && WeightEnd(s, p) == q && 0 <= weight <= WEIGHT_ONE
  {
    if p + 1 < q {
      assert AfterDigits(s, p + 2) == q;
      RoundedByFourDigits(DigitValue(s[p]), s[p + 2..q]);
    }
  }

  lemma WeightReadIsText(s: string, p: int)
    requires 0 <= p <= |s| && WeightAt(s, p) >= 0
    ensures WeightText(s, p, WeightEnd(s, p), WeightAt(s, p))
  {
  }

  /** What reading finds after the semicolon. */
  ghost predicate WeightRead(s: string, p: int, end: int, weight: int)
    requires 0 <= p <= |s|
  {
    var q := SkipSpaces(s, p);
    && q < |s| && s[q] == 'q'
    && var e := SkipSpaces(s, q + 1);
       && e < |s| && s[e] == '='
       && var w := SkipSpaces(s, e + 1);
          0 <= weight == WeightAt(s, w) && end == SkipSpaces(s, WeightEnd(s, w))
  }

  /** What reading finds at a tag. */
  ghost predicate RangeRead(canonical: Canonical, s: string, a: int, end: int, f: Field)
    requires 0 <= a <= |s|
  {
    var b := TagEnd(s, a);
    && a < b && canonical(s[a..b]) == Some(f.locale)
    && var c := SkipSpaces(s, b);
       if c < |s| && s[c] == ';' then WeightRead(s, c + 1, end, f.weight) else end == c && f.weight == WEIGHT_ONE
  }

  predicate EndsElement(s: string, end: int) { 0 <= end <= |s| && (end == |s| || s[end] == ',') }

  lemma WeightTextIsRead(s: string, p: int, q: int, e: int, w: int, r: int, end: int, weight: int)
    requires WeightAtPlaces(s, p, q, e, w, r, end, weight) && EndsElement(s, end)
    ensures WeightRead(s, p, end, weight)
  {
    hide WeightAt, WeightEnd, SkipSpaces;
    SkipFinds(s, p, q);
    SkipFinds(s, q + 1, e);
    SkipFinds(s, e + 1, w);
    WeightFound(s, w, r, weight);
    SkipFinds(s, r, end);
  }

  lemma WeightReadIsPart(s: string, p: int, end: int, weight: int)
    requires 0 <= p <= |s| && WeightRead(s, p, end, weight)
    ensures WeightPart(s, p, end, weight)
  {
    var q := SkipSpaces(s, p);
    var e := SkipSpaces(s, q + 1);
    var w := SkipSpaces(s, e + 1);
    WeightReadIsText(s, w);
    assert WeightAtPlaces(s, p, q, e, w, WeightEnd(s, w), end, weight);
  }

  lemma RangeTextIsRead(canonical: Canonical, s: string, p: int, end: int, f: Field)
    requires RangeText(canonical, s, p, end, f) && EndsElement(s, end)
    ensures 0 <= p <= |s| && RangeRead(canonical, s, SkipSpaces(s, p), end, f)
  {
    hide WeightRead, WeightAtPlaces, SkipSpaces, TagEnd;
    var a, b :| RangeAtPlaces(canonical, s, p, a, b, end, f);
    SkipFinds(s, p, a);
    if Spaces(s, b, end) && f.weight == WEIGHT_ONE {
      TagEndFinds(s, a, b);
      SkipFinds(s, b, end);
    } else {
      var c :| Semicolon(s, b, c, end, f.weight);
      TagEndFinds(s, a, b);
      SkipFinds(s, b, c);
      var q, e, w, r :| WeightAtPlaces(s, c + 1, q, e, w, r, end, f.weight);
      WeightTextIsRead(s, c + 1, q, e, w, r, end, f.weight);
    }
  }

  lemma RangeReadIsText(canonical: Canonical, s: string, p: int, end: int, f: Field)
    requires 0 <= p <= |s| && RangeRead(canonical, s, SkipSpaces(s, p), end, f)
    ensures RangeText(canonical, s, p, end, f)
  {
    hide WeightRead, WeightPart;
    var a := SkipSpaces(s, p);
    var b := TagEnd(s, a);
    var c := SkipSpaces(s, b);
    if c < |s| && s[c] == ';' {
      WeightReadIsPart(s, c + 1, end, f.weight);
      WeightPartLonger(s, c + 1, end, f.weight);
      assert Semicolon(s, b, c, end, f.weight);
    }
    assert RangeAtPlaces(canonical, s, p, a, b, end, f);
  }

  /** A weight goes forward in the text and has no comma in it. */
  lemma WeightPartLonger(s: string, p: int, end: int, weight: int)
    requires WeightPart(s, p, end, weight)
    ensures 0 <= p < end <= |s| && 0 <= weight <= WEIGHT_ONE && forall i :: p <= i < end ==> s[i] != ','
  {
    var q, e, w, r :| WeightAtPlaces(s, p, q, e, w, r, end, weight);
    assert 0 <= weight by {
      if w + 1 < r { RoundedByFourDigits(DigitValue(s[w]), s[w + 2..r]); }
    }
  }

  /** A language range is as long as the element it is in. */
  lemma RangeFillsElement(canonical: Canonical, s: string, p: int, end: int, f: Field)
    requires RangeText(canonical, s, p, end, f) && EndsElement(s, end)
    ensures 0 <= p < end == ElementEnd(s, p) && !Spaces(s, p, end) && 0 <= f.weight <= WEIGHT_ONE
  {
    hide WeightPart;
    var a, b :| RangeAtPlaces(canonical, s, p, a, b, end, f);
    if !(Spaces(s, b, end) && f.weight == WEIGHT_ONE) {
      var c :| Semicolon(s, b, c, end, f.weight);
      WeightPartLonger(s, c + 1, end, f.weight);
    }
    assert !Delimits(s[a]);
  }

  /** An element is a language range in one way only. */
  lemma RangeUnique(canonical: Canonical, s: string, p: int, end: int, f: Field, g: Field)
    requires RangeText(canonical, s, p, end, f) && RangeText(canonical, s, p, end, g) && EndsElement(s, end)
    ensures f == g
  {
    RangeTextIsRead(canonical, s, p, end, f);
    RangeTextIsRead(canonical, s, p, end, g);
  }

  /** The header decides what is read from it. */
  lemma {:induction false} ParsedUnique(canonical: Canonical, s: string, p: int, fields: seq<Field>, ok: bool,
                                        fields': seq<Field>, ok': bool)
    requires 0 <= p <= |s| && Parsed(canonical, s, p, fields, ok) && Parsed(canonical, s, p, fields', ok')
    ensures fields == fields' && ok == ok'
    decreases |s| - p
  {
    hide RangeText;
    var e := ElementEnd(s, p);
    if Spaces(s, p, e) {
      if e < |s| { ParsedUnique(canonical, s, e + 1, fields, ok, fields', ok'); }
    } else if exists f :: RangeText(canonical, s, p, e, f) {
      RangeUnique(canonical, s, p, e, fields[0], fields'[0]);
      if e < |s| { ParsedUnique(canonical, s, e + 1, fields[1..], ok, fields'[1..], ok'); }
      assert fields == [fields[0]] + fields[1..] && fields' == [fields'[0]] + fields'[1..];
    }
  }

  // ----- the reader

  method Skip(s: string, p: int) returns (q: int)
    requires 0 <= p <= |s|
    ensures q == SkipSpaces(s, p)
  {
    q := p;
    while q < |s| && s[q] == ' '
      invariant p <= q <= |s| && SkipSpaces(s, q) == SkipSpaces(s, p)
    {
      q := q + 1;
    }
  }

  method FindTagEnd(s: string, p: int) returns (q: int)
    requires 0 <= p <= |s|
    ensures q == TagEnd(s, p)
  {
    q := p;
    while q < |s| && !Delimits(s[q])
      invariant p <= q <= |s| && TagEnd(s, q) == TagEnd(s, p)
    {
      q := q + 1;
    }
  }

  /** Reads what follows a semicolon; a negative weight if that is not a weight. */
  method ReadWeight(s: string, p: int) returns (weight: int, p': int)
    requires 0 <= p <= |s|
    ensures 0 <= p' <= |s| && (weight >= 0 ==> WeightRead(s, p, p', weight))
    ensures weight < 0 ==> forall end, w :: !WeightRead(s, p, end, w)
  {
    hide WeightAt, WeightEnd, SkipSpaces;
    weight := -1;
    p' := Skip(s, p);
    if p' == |s| || s[p'] != 'q' {
      return;
    }
    p' := Skip(s, p' + 1);
    if p' == |s| || s[p'] != '=' {
      return;
    }
    weight, p' := ParseWeight(s, p' + 1);
    p' := Skip(s, p');
  }

  /** Reads a language range at `p`, where there is no space. */
  method ReadRange(canonical: Canonical, s: string, p: int) returns (field: Option<Field>, p': int)
    requires 0 <= p <= |s|
    ensures 0 <= p' <= |s| && (field.Some? ==> RangeRead(canonical, s, p, p', field.value))
    ensures field.None? ==> forall end, f :: !RangeRead(canonical, s, p, end, f)
  {
    hide WeightRead;
    field := None;
    p' := FindTagEnd(s, p);
    if p' == p {
      return;
    }
    var locale := canonical(s[p..p']);
    if locale.None? {
      return;
    }
    var weight := WEIGHT_ONE;
    p' := Skip(s, p');
    if p' < |s| && s[p'] == ';' {
      weight, p' := ReadWeight(s, p' + 1);
      if weight < 0 {
        return;
      }
    }
    field := Some(Field(locale.value, weight));
  }

  /** What is read from `p` on comes after `before` in what is read from the whole header. */
  ghost predicate Continues(canonical: Canonical, s: string, p: int, before: seq<Field>)
    requires 0 <= p <= |s|
  {
    forall rest, ok :: Parsed(canonical, s, p, rest, ok) ==> Parsed(canonical, s, 0, before + rest, ok)
  }

  lemma ContinueAfterRange(canonical: Canonical, s: string, p: int, end: int, before: seq<Field>, f: Field)
    requires 0 <= p <= |s| && Continues(canonical, s, p, before)
    requires RangeText(canonical, s, p, end, f) && EndsElement(s, end)
    ensures end < |s| ==> Continues(canonical, s, end + 1, before + [f])
    ensures end == |s| ==> Parsed(canonical, s, 0, before + [f], true)
  {
    hide RangeText;
    RangeFillsElement(canonical, s, p, end, f);
    if end < |s| {
      forall rest, ok | Parsed(canonical, s, end + 1, rest, ok)
        ensures Parsed(canonical, s, 0, before + [f] + rest, ok)
      {
        assert ([f] + rest)[1..] == rest;
        assert Parsed(canonical, s, p, [f] + rest, ok);
        assert before + ([f] + rest) == before + [f] + rest;
      }
    } else {
      assert Parsed(canonical, s, p, [f], true);
    }
  }

  lemma ContinueAfterSpaces(canonical: Canonical, s: string, p: int, end: int, before: seq<Field>)
    requires 0 <= p <= |s| && Continues(canonical, s, p, before)
    requires Spaces(s, p, end) && EndsElement(s, end)
    ensures end < |s| ==> Continues(canonical, s, end + 1, before)
    ensures end == |s| ==> Parsed(canonical, s, 0, before, true)
  {
    hide RangeText;
    assert ElementEnd(s, p) == end;
    if end == |s| {
      assert Parsed(canonical, s, p, [], true);
      assert before + [] == before;
    }
  }

  /** Neither spaces nor a language range are at `p`, where reading found none. */
  lemma StopAtIllegal(canonical: Canonical, s: string, p: int, a: int, before: seq<Field>)
    requires 0 <= p <= |s| && Continues(canonical, s, p, before)
    requires a == SkipSpaces(s, p) && a < |s| && s[a] != ','
    requires forall end, f :: EndsElement(s, end) ==> !RangeRead(canonical, s, a, end, f)
    ensures Parsed(canonical, s, 0, before, false)
  {
    hide RangeText, RangeRead;
    var e := ElementEnd(s, p);
    assert a < e;
    assert !Spaces(s, p, e);
    forall f ensures !RangeText(canonical, s, p, e, f) {
      if RangeText(canonical, s, p, e, f) { RangeTextIsRead(canonical, s, p, e, f); }
    }
    assert Parsed(canonical, s, p, [], false);
    assert before + [] == before;
  }

  lemma JunkAfterRange(canonical: Canonical, s: string, a: int, end: int, f: Field)
    requires 0 <= a <= |s| && RangeRead(canonical, s, a, end, f) && !EndsElement(s, end)
    ensures forall end', g :: EndsElement(s, end') ==> !RangeRead(canonical, s, a, end', g)
  {
  }

  /** Reads the fields of a header, up to the first element that is not legal. */
  method ParseFields(canonical: Canonical, s: string) returns (ok: bool, fields: seq<Field>)
    ensures Parsed(canonical, s, 0, fields, ok)
    ensures AtMostOne(fields)
  {
    hide Parsed, RangeRead, RangeText;
    fields := [];
    ghost var start := 0;
    var p := Skip(s, 0);
    assert Continues(canonical, s, 0, []) by { StartOfHeader(canonical, s); }
    while p < |s|
      invariant 0 <= start <= p <= |s| && p == SkipSpaces(s, start) && Continues(canonical, s, start, fields)
      invariant AtMostOne(fields)
      decreases |s| - p
    {
      if s[p] == ',' {
        ContinueAfterSpaces(canonical, s, start, p, fields);
      } else {
        ghost var a := p;
        var field;
        field, p := ReadRange(canonical, s, p);
        if field.Some? && EndsElement(s, p) {
          RangeReadIsText(canonical, s, start, p, field.value);
          RangeFillsElement(canonical, s, start, p, field.value);
          ContinueAfterRange(canonical, s, start, p, fields, field.value);
          fields := fields + [field.value];
        } else {
          if field.Some? { JunkAfterRange(canonical, s, a, p, field.value); }
          StopAtIllegal(canonical, s, start, a, fields);
          return false, fields;
        }
        if p == |s| {
          return true, fields;
        }
      }
      start := p + 1;
      p := Skip(s, p + 1);
    }
    ContinueAfterSpaces(canonical, s, start, p, fields);
    ok := true;
  }

  lemma StartOfHeader(canonical: Canonical, s: string)
    ensures Continues(canonical, s, 0, [])
  {
    hide Parsed;
    forall rest, ok | Parsed(canonical, s, 0, rest, ok) ensures Parsed(canonical, s, 0, [] + rest, ok) {
      assert [] + rest == rest;
    }
  }

  /** The locales that a header accepts, the most preferred first, unless the header is not legal. */
  method FromHeader(canonical: Canonical, s: string) returns (ok: bool, locales: seq<string>)
    ensures exists fields :: Parsed(canonical, s, 0, fields, ok) && (ok ==> Ranking.RankedLocales(fields, locales))
  {
    hide Parsed, Ranking.RankedLocales;
    var fields;
    ok, fields := ParseFields(canonical, s);
    locales := [];
    if ok {
      locales := Ranking.Rank(fields);
    }
  }
}
