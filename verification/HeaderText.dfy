/** Writing an Accept-Language header, and reading it again. */
module HeaderText {
  import opened Basics
  import opened PriorityList
  import opened WeightParser
  import opened AcceptLanguage
  import Ranking

  const DIGITS := "0123456789"

  /** A weight in thousandths as a number with three digits after the point, or as 1. */
  function Written(n: int): string
    requires 0 <= n <= 1000
  {
    if n == 1000 then "1" else "0." + [DIGITS[n / 100], DIGITS[n / 10 % 10], DIGITS[n % 10]]
  }

  lemma DigitsRead(d: int)
    requires 0 <= d <= 9
    ensures IsDigit(DIGITS[d]) && DigitValue(DIGITS[d]) == d
  {
    assert DIGITS[d] as int == 48 + d;
  }

  /** The text `t` is in `s` at `p`. */
  ghost predicate TextAt(s: string, p: int, t: string) { 0 <= p && p + |t| <= |s| && s[p..p + |t|] == t }

  lemma TextParts(s: string, p: int, t: string, u: string)
    requires TextAt(s, p, t + u)
    ensures TextAt(s, p, t) && TextAt(s, p + |t|, u)
  {
    assert s[p..p + |t|] == (t + u)[..|t|] == t;
    assert s[p + |t|..p + |t| + |u|] == (t + u)[|t|..] == u;
  }

  lemma TextChar(s: string, p: int, t: string, k: int)
    requires TextAt(s, p, t) && 0 <= k < |t|
    ensures s[p + k] == t[k]
  {
    assert s[p..p + |t|][k] == t[k];
  }

  /** A written weight is a weight, with the value it was written for. */
  lemma WrittenWeight(s: string, p: int, n: int)
    requires 0 <= n <= 1000 && TextAt(s, p, Written(n))
    ensures WeightText(s, p, p + |Written(n)|, n)
  {
    hide Fraction, InThousandths, Thousandths;
    if n == 1000 {
      TextChar(s, p, "1", 0);
      assert DigitValue('1') == 1;
    } else {
      var digits := [DIGITS[n / 100], DIGITS[n / 10 % 10], DIGITS[n % 10]];
      ThreeDigits(n, digits);
      TextParts(s, p, "0.", digits);
      TextChar(s, p, "0.", 0);
      TextChar(s, p, "0.", 1);
      FractionText(s, p, digits, n);
    }
  }

  lemma ThreeDigits(n: int, digits: string)
    requires 0 <= n < 1000 && digits == [DIGITS[n / 100], DIGITS[n / 10 % 10], DIGITS[n % 10]]
    ensures (forall c :: c in digits ==> IsDigit(c)) && Thousandths(digits) == n
  {
    hide Thousandths;
    DecimalDigits(n);
    DigitsDenote(n / 100, n / 10 % 10, n % 10);
  }

  lemma DecimalDigits(n: int)
    requires 0 <= n < 1000
    ensures 0 <= n / 100 <= 9 && n == n / 100 * 100 + n / 10 % 10 * 10 + n % 10
  {
  }

  lemma DigitsDenote(a: int, b: int, c: int)
    requires 0 <= a <= 9 && 0 <= b <= 9 && 0 <= c <= 9
    ensures var digits := [DIGITS[a], DIGITS[b], DIGITS[c]];
            (forall c :: c in digits ==> IsDigit(c)) && Thousandths(digits) == a * 100 + b * 10 + c
  {
    DigitsRead(a);
    DigitsRead(b);
    DigitsRead(c);
    var digits := [DIGITS[a], DIGITS[b], DIGITS[c]];
    assert digits[0] == DIGITS[a] && digits[1] == DIGITS[b] && digits[2] == DIGITS[c];
  }

  lemma FractionText(s: string, p: int, digits: string, n: int)
    requires (forall c :: c in digits ==> IsDigit(c)) && Thousandths(digits) == n < 1000
    requires TextAt(s, p, "0.") && s[p] == '0' && s[p + 1] == '.' && TextAt(s, p + 2, digits)
    ensures WeightText(s, p, p + 2 + |digits|, n)
  {
    hide Fraction, InThousandths, Thousandths;
    forall i | p + 2 <= i < p + 2 + |digits| ensures IsDigit(s[i]) { TextChar(s, p + 2, digits, i - p - 2); }
    RoundedByFourDigits(0, digits);
    assert DigitValue('0') == 0;
  }

  /** A language tag without anything that ends it. */
  predicate Plain(tag: string) { tag != "" && ' ' !in tag && ',' !in tag && ';' !in tag }

  datatype Item = Item(tag: string, weight: int)

  predicate Writable(items: seq<Item>) {
    forall k :: 0 <= k < |items| ==> Plain(items[k].tag) && 0 <= items[k].weight <= 1000
  }

  function ItemText(i: Item): string
    requires 0 <= i.weight <= 1000
  {
    i.tag + ";q=" + Written(i.weight)
  }

  function Header(items: seq<Item>): string
    requires Writable(items)
  {
    if items == [] then ""
    else if |items| == 1 then ItemText(items[0])
    else ItemText(items[0]) + "," + Header(items[1..])
  }

  ghost function FieldsOf(canonical: Canonical, items: seq<Item>): seq<Field>
    requires forall k :: 0 <= k < |items| ==> canonical(items[k].tag).Some?
  {
    seq(|items|, k requires 0 <= k < |items| => Field(canonical(items[k].tag).value, items[k].weight))
  }

  lemma TagRead(s: string, p: int, tag: string)
    requires Plain(tag) && TextAt(s, p, tag)
    ensures Tag(s, p, p + |tag|) && s[p..p + |tag|] == tag
  {
    forall k | p <= k < p + |tag| ensures !Delimits(s[k]) { TextChar(s, p, tag, k - p); }
  }

  lemma SuffixRead(s: string, b: int, weight: int)
    requires 0 <= weight <= 1000 && TextAt(s, b, ";q=" + Written(weight))
    ensures Semicolon(s, b, b, b + 3 + |Written(weight)|, weight)
  {
    hide WeightText, Written;
    TextParts(s, b, ";q=", Written(weight));
    TextChar(s, b, ";q=", 0);
    TextChar(s, b, ";q=", 1);
    TextChar(s, b, ";q=", 2);
    WrittenWeight(s, b + 3, weight);
    var end := b + 3 + |Written(weight)|;
    assert WeightAtPlaces(s, b + 1, b + 1, b + 2, b + 3, end, end, weight);
  }

  /** A written item is a language range. */
  lemma ItemRead(canonical: Canonical, s: string, p: int, i: Item)
    requires Plain(i.tag) && 0 <= i.weight <= 1000 && canonical(i.tag).Some? && TextAt(s, p, ItemText(i))
    ensures RangeText(canonical, s, p, p + |ItemText(i)|, Field(canonical(i.tag).value, i.weight))
  {
    hide Written, TextAt, Tag, Semicolon, Plain;
    var b, end := p + |i.tag|, p + |ItemText(i)|;
    assert ItemText(i) == i.tag + (";q=" + Written(i.weight));
    TextParts(s, p, i.tag, ";q=" + Written(i.weight));
    TagRead(s, p, i.tag);
    TagBounds(s, p, b);
    SuffixRead(s, b, i.weight);
    assert RangeAtPlaces(canonical, s, p, p, b, end, Field(canonical(i.tag).value, i.weight));
  }

  lemma TagBounds(s: string, p: int, b: int)
    requires Tag(s, p, b)
    ensures 0 <= p < b <= |s| && Spaces(s, p, p)
  {
  }

  /** The first item of a header, and the rest after the comma. */
  lemma HeaderParts(s: string, p: int, items: seq<Item>)
    requires Writable(items) && items != [] && 0 <= p <= |s| && s[p..] == Header(items)
    ensures var e := p + |ItemText(items[0])|;
            && TextAt(s, p, ItemText(items[0])) && EndsElement(s, e)
            && if |items| == 1 then e == |s| else e < |s| && s[e + 1..] == Header(items[1..])
  {
    hide ItemText, TextAt;
    var t := ItemText(items[0]);
    if |items| == 1 {
      assert t + "" == t;
      SplitText(s, p, t, "");
    } else {
      var rest := Header(items[1..]);
      assert Header(items) == t + "," + rest == t + ("," + rest);
      SplitText(s, p, t, "," + rest);
      SplitText(s, p + |t|, ",", rest);
    }
  }

  lemma SplitText(s: string, p: int, t: string, u: string)
    requires 0 <= p <= |s| && s[p..] == t + u
    ensures p + |t| <= |s| && TextAt(s, p, t) && s[p + |t|..] == u
    ensures u != "" ==> p + |t| < |s| && s[p + |t|] == u[0]
  {
    assert s[p..p + |t|] == s[p..][..|t|] == t;
    assert s[p + |t|..] == s[p..][|t|..] == u;
  }

  lemma ParsedNext(canonical: Canonical, s: string, p: int, e: int, fields: seq<Field>)
    requires 0 <= p <= |s| && EndsElement(s, e) && fields != [] && RangeText(canonical, s, p, e, fields[0])
    requires if e == |s| then |fields| == 1 else Parsed(canonical, s, e + 1, fields[1..], true)
    ensures Parsed(canonical, s, p, fields, true)
  {
    hide RangeText;
    RangeFillsElement(canonical, s, p, e, fields[0]);
  }

  /** A written header is read as the fields it was written for. */
  lemma {:induction false} HeaderRead(canonical: Canonical, s: string, p: int, items: seq<Item>)
    requires Writable(items) && items != [] && 0 <= p <= |s| && s[p..] == Header(items)
    requires forall k :: 0 <= k < |items| ==> canonical(items[k].tag).Some?
    ensures Parsed(canonical, s, p, FieldsOf(canonical, items), true)
    decreases |items|
  {
    hide ItemText, RangeText, Parsed, Header, TextAt, EndsElement;
    var i, fields := items[0], FieldsOf(canonical, items);
    var e := p + |ItemText(i)|;
    HeaderParts(s, p, items);
    ItemRead(canonical, s, p, i);
    if |items| > 1 {
      HeaderRead(canonical, s, e + 1, items[1..]);
      assert FieldsOf(canonical, items[1..]) == fields[1..];
    }
    ParsedNext(canonical, s, p, e, fields);
  }

  /** Writing a header and reading it gives the locales of its items, each once, the most preferred first. */
  method WriteAndRead(canonical: Canonical, items: seq<Item>) returns (ok: bool, locales: seq<string>)
    requires Writable(items) && items != [] && forall k :: 0 <= k < |items| ==> canonical(items[k].tag).Some?
    ensures ok && Ranking.RankedLocales(FieldsOf(canonical, items), locales)
  {
    hide Parsed, Header, Ranking.RankedLocales, FieldsOf;
    var s := Header(items);
    assert s[0..] == s;
    HeaderRead(canonical, s, 0, items);
    ok, locales := FromHeader(canonical, s);
    ghost var fields :| Parsed(canonical, s, 0, fields, ok) && (ok ==> Ranking.RankedLocales(fields, locales));
    ParsedUnique(canonical, s, 0, fields, ok, FieldsOf(canonical, items), true);
  }
}
