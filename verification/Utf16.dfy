/**
 UTF-16 text: code point boundaries and spans of code points (section 2 of RFC 2781).
 Single surrogates count as code points.
 */
module Utf16 {
  import opened InversionList

  type Unit16 = u: int | 0 <= u < 0x10000

  predicate IsLead(u: Unit16) { 0xd800 <= u < 0xdc00 }

  predicate IsTrail(u: Unit16) { 0xdc00 <= u < 0xe000 }

  function Supplementary(lead: Unit16, trail: Unit16): (c: int)
    requires IsLead(lead) && IsTrail(trail)
    ensures 0x10000 <= c <= 0x10ffff
  {
    (lead - 0xd800) * 0x400 + (trail - 0xdc00) + 0x10000
  }

  predicate PairAt(s: seq<Unit16>, i: int) {
    0 <= i && i + 1 < |s| && IsLead(s[i]) && IsTrail(s[i + 1])
  }

  /** Index `i` is not in the middle of a surrogate pair. */
  predicate Border(s: seq<Unit16>, i: int) {
    0 <= i <= |s| && !PairAt(s, i - 1)
  }

  function CodePointAt(s: seq<Unit16>, i: int): int
    requires 0 <= i < |s|
  {
    if PairAt(s, i) then Supplementary(s[i], s[i + 1]) else s[i]
  }

  function CodePointBefore(s: seq<Unit16>, i: int): int
    requires 0 < i <= |s|
  {
    if PairAt(s, i - 2) then Supplementary(s[i - 2], s[i - 1]) else s[i - 1]
  }

  /** The code points before `r` are all in the set, or all outside it. */
  ghost predicate AllBefore(list: seq<int>, s: seq<Unit16>, r: int, contained: bool)
    requires ValidList(list) && r <= |s|
  {
    forall i :: 0 <= i < r && Border(s, i) ==> (InSet(list, CodePointAt(s, i)) <==> contained)
  }

  lemma SpanNext(list: seq<int>, s: seq<Unit16>, r: int, contained: bool)
    requires ValidList(list) && 0 <= r < |s| && Border(s, r) && AllBefore(list, s, r, contained)
    requires InSet(list, CodePointAt(s, r)) <==> contained
    ensures var next := if PairAt(s, r) then r + 2 else r + 1;
            next <= |s| && Border(s, next) && AllBefore(list, s, next, contained)
  {
    hide InSet, CodePointAt;
  }

  /** The longest prefix all of whose code points are in the set, or all of whose are not. */
  ghost predicate SpanUpTo(list: seq<int>, s: seq<Unit16>, r: int, contained: bool)
    requires ValidList(list)
  {
    && Border(s, r) && AllBefore(list, s, r, contained)
    && (r < |s| ==> (InSet(list, CodePointAt(s, r)) <==> !contained))
  }

  /** The longest such suffix. */
  ghost predicate SpanDownTo(list: seq<int>, s: seq<Unit16>, r: int, contained: bool)
    requires ValidList(list)
  {
    && Border(s, r)
    && (forall i :: r <= i < |s| && Border(s, i) ==> (InSet(list, CodePointAt(s, i)) <==> contained))
    && (0 < r ==> (InSet(list, CodePointBefore(s, r)) <==> !contained))
  }

  lemma SpanUnique(list: seq<int>, s: seq<Unit16>, r: int, r': int, contained: bool)
    requires ValidList(list) && SpanUpTo(list, s, r, contained) && SpanUpTo(list, s, r', contained)
    ensures r == r'
  {
  }

  /** Going backward finds the same code points as going forward. */
  lemma BackwardSteps(s: seq<Unit16>, i: int)
    requires Border(s, i) && 0 < i
    ensures var p := if PairAt(s, i - 2) then i - 2 else i - 1;
            Border(s, p) && CodePointAt(s, p) == CodePointBefore(s, i)
  {
  }

  /** The forward span is the whole text exactly if the backward span is. */
  lemma SpansAgreeOnWholeText(list: seq<int>, s: seq<Unit16>, r: int, r': int, contained: bool)
    requires ValidList(list) && SpanUpTo(list, s, r, contained) && SpanDownTo(list, s, r', contained)
    ensures r == |s| <==> r' == 0
  {
    hide InSet;
    if 0 < r' { BackwardSteps(s, r'); }
  }

  // ----- encoding

  /** A code point as one unit, or as the upper and lower ten bits of what exceeds 0x10000. */
  function Encode16(c: int): (s: seq<Unit16>)
    requires 0 <= c <= 0x10ffff
    ensures 1 <= |s| <= 2
    ensures 0x10000 <= c ==> s == [0xd7c0 + c / 0x400, 0xdc00 + c % 0x400]
  {
    if c < 0x10000 then [c]
    else
      var u := c - 0x10000;
      [0xd800 + u / 0x400, 0xdc00 + u % 0x400]
  }

  /** A supplementary code point is found where it has been encoded, from either side. */
  lemma DecodePair(before: seq<Unit16>, c: int, after: seq<Unit16>)
    requires 0x10000 <= c <= 0x10ffff
    ensures var s, i := before + Encode16(c) + after, |before|;
            PairAt(s, i) && CodePointAt(s, i) == c && CodePointBefore(s, i + 2) == c
  {
    var s, i := before + Encode16(c) + after, |before|;
    assert s[i] == Encode16(c)[0] && s[i + 1] == Encode16(c)[1];
  }

  /** Any other code point is found, too, unless it is half of a pair. */
  lemma DecodeUnit(before: seq<Unit16>, c: int, after: seq<Unit16>)
    requires 0 <= c < 0x10000 && (IsLead(c) ==> after == [] || !IsTrail(after[0]))
    requires IsTrail(c) ==> before == [] || !IsLead(before[|before| - 1])
    ensures var s, i := before + Encode16(c) + after, |before|;
            CodePointAt(s, i) == c && CodePointBefore(s, i + 1) == c
  {
  }

  /** The units at `i` are the encoding of the code point there. */
  lemma EncodeDecoded16(s: seq<Unit16>, i: int)
    requires 0 <= i < |s|
    ensures var n := if PairAt(s, i) then 2 else 1; s[i..i + n] == Encode16(CodePointAt(s, i))
  {
  }
}
