/**
 UTF-8 text (section 3 of RFC 3629) and the plain way to span it: decode one character at a time,
 with U+FFFD for every byte that does not start a well-formed sequence.
 */
module Utf8 {
  import opened Basics
  import opened InversionList

  predicate IsTrail8(b: Byte) { 0x80 <= b < 0xc0 }

  /** The bytes after index `i` up to `i + n` exist and are trail bytes. */
  predicate Trails8(s: seq<Byte>, i: int, n: nat)
    requires 0 <= i
  {
    i + n < |s| && forall k :: i < k <= i + n ==> IsTrail8(s[k])
  }

  function Low(b: Byte, m: int): int
    requires m > 0
  {
    b % m
  }

  function Value2(s: seq<Byte>, i: int): int
    requires 0 <= i && i + 1 < |s|
  {
    Low(s[i], 0x20) * 0x40 + Low(s[i + 1], 0x40)
  }

  function Value3(s: seq<Byte>, i: int): int
    requires 0 <= i && i + 2 < |s|
  {
    Low(s[i], 0x10) * 0x1000 + Low(s[i + 1], 0x40) * 0x40 + Low(s[i + 2], 0x40)
  }

  function Value4(s: seq<Byte>, i: int): int
    requires 0 <= i && i + 3 < |s| && 0xf0 <= s[i]
  {
    Low(s[i], 0x10) * 0x40000 + Low(s[i + 1], 0x40) * 0x1000 + Low(s[i + 2], 0x40) * 0x40 + Low(s[i + 3], 0x40)
  }

  /** Length of the well-formed sequence at `i`, or 0: shortest forms of scalar values only. */
  function WellFormedLength(s: seq<Byte>, i: int): (n: nat)
    requires 0 <= i < |s|
    ensures i + n <= |s|
  {
    var b := s[i];
    if b < 0x80 then 1
    else if 0xc0 <= b < 0xe0 && Trails8(s, i, 1) && 0x80 <= Value2(s, i) then 2
    else if 0xe0 <= b < 0xf0 && Trails8(s, i, 2) && 0x800 <= Value3(s, i) && !(0xd800 <= Value3(s, i) < 0xe000) then 3
    else if 0xf0 <= b && Trails8(s, i, 3) && 0x10000 <= Value4(s, i) <= 0x10ffff then 4
    else 0
  }

  function CharAt8(s: seq<Byte>, i: int): int
    requires 0 <= i < |s|
  {
    match WellFormedLength(s, i)
    case 1 => s[i]
    case 2 => Value2(s, i)
    case 3 => Value3(s, i)
    case 4 => Value4(s, i)
    case _ => 0xfffd
  }

  function CharLength8(s: seq<Byte>, i: int): (n: nat)
    requires 0 <= i < |s|
    ensures 0 < n && i + n <= |s|
  {
    if WellFormedLength(s, i) == 0 then 1 else WellFormedLength(s, i)
  }

  /** Where spanning character by character from `i` stops. */
  ghost function NaiveSpan(list: seq<int>, s: seq<Byte>, i: int, contained: bool): int
    requires ValidList(list) && 0 <= i <= |s|
    decreases |s| - i
  {
    if i < |s| && (InSet(list, CharAt8(s, i)) <==> contained)
    then NaiveSpan(list, s, i + CharLength8(s, i), contained)
    else i
  }

  /** A run of bytes none of which starts a well-formed sequence. */
  ghost predicate AllIllFormed(s: seq<Byte>, i: int, j: int) {
    0 <= i <= j <= |s| && forall k :: i <= k < j ==> WellFormedLength(s, k) == 0
  }

  lemma {:induction false} SpanIllFormed(list: seq<int>, s: seq<Byte>, i: int, j: int, contained: bool)
    requires ValidList(list) && AllIllFormed(s, i, j)
    ensures (InSet(list, 0xfffd) <==> contained) ==>
              NaiveSpan(list, s, i, contained) == NaiveSpan(list, s, j, contained)
    ensures i < j && (InSet(list, 0xfffd) <==> !contained) ==> NaiveSpan(list, s, i, contained) == i
    decreases j - i
  {
    hide InSet, WellFormedLength;
    if i < j {
      assert WellFormedLength(s, i) == 0;
      SpanIllFormed(list, s, i + 1, j, contained);
    }
  }

  lemma IllFormedChar(s: seq<Byte>, i: int)
    requires 0 <= i < |s| && WellFormedLength(s, i) == 0
    ensures CharAt8(s, i) == 0xfffd
  {
  }

  lemma FourBytes(s: seq<Byte>, i: int)
    requires 0 <= i && Trails8(s, i, 3) && 0xf0 <= s[i]
    ensures var c := (s[i] as int - 0xf0) * 0x40000 + (s[i + 1] as int - 0x80) * 0x1000
                     + (s[i + 2] as int - 0x80) * 0x40 + s[i + 3] as int - 0x80;
            if 0x10000 <= c <= 0x10ffff then WellFormedLength(s, i) == 4 && CharAt8(s, i) == c
            else WellFormedLength(s, i) == 0 && CharAt8(s, i) == 0xfffd
  {
  }

  lemma TwoBytes(s: seq<Byte>, i: int)
    requires 0 <= i && Trails8(s, i, 1) && 0xc0 <= s[i] < 0xe0
    ensures var c := (s[i] as int - 0xc0) * 0x40 + s[i + 1] as int - 0x80;
            if 0x80 <= c then WellFormedLength(s, i) == 2 && CharAt8(s, i) == c
            else WellFormedLength(s, i) == 0 && CharAt8(s, i) == 0xfffd
  {
  }

  lemma ThreeBytes(s: seq<Byte>, i: int)
    requires 0 <= i && Trails8(s, i, 2) && 0xe0 <= s[i] < 0xf0
    ensures var c := (s[i] as int - 0xe0) * 0x1000 + (s[i + 1] as int - 0x80) * 0x40 + s[i + 2] as int - 0x80;
            if 0x800 <= c && !(0xd800 <= c < 0xe000) then WellFormedLength(s, i) == 3 && CharAt8(s, i) == c
            else WellFormedLength(s, i) == 0 && CharAt8(s, i) == 0xfffd
  {
  }

  // ----- encoding

  /** What can be encoded: code points that are no surrogates. */
  predicate Scalar(c: int) { 0 <= c <= 0x10ffff && !(0xd800 <= c < 0xe000) }

  /** The last `n` groups of six bits, as trail bytes. */
  function TrailBytes(c: nat, n: nat): (b: seq<Byte>)
    ensures |b| == n
  {
    if n == 0 then [] else TrailBytes(c / 0x40, n - 1) + [0x80 + c % 0x40]
  }

  /** The character from its lowest bits up: six in each trail byte, the rest in the lead byte. */
  function Encode8(c: int): (b: seq<Byte>)
    requires Scalar(c)
    ensures c < 0x80 ==> b == [c]
    ensures 0x80 <= c < 0x800 ==> b == [0xc0 + c / 0x40, 0x80 + c % 0x40]
    ensures 0x800 <= c < 0x10000 ==> b == [0xe0 + c / 0x1000, 0x80 + c / 0x40 % 0x40, 0x80 + c % 0x40]
    ensures 0x10000 <= c ==>
              b == [0xf0 + c / 0x40000, 0x80 + c / 0x1000 % 0x40, 0x80 + c / 0x40 % 0x40, 0x80 + c % 0x40]
  {
    TrailsAre(c);
    if c < 0x80 then [c]
    else if c < 0x800 then [0xc0 + c / 0x40] + TrailBytes(c, 1)
    else if c < 0x10000 then [0xe0 + c / 0x40 / 0x40] + TrailBytes(c, 2)
    else [0xf0 + c / 0x40 / 0x40 / 0x40] + TrailBytes(c, 3)
  }

  lemma TrailsAre(c: nat)
    ensures TrailBytes(c, 1) == [0x80 + c % 0x40]
    ensures TrailBytes(c, 2) == [0x80 + c / 0x40 % 0x40, 0x80 + c % 0x40]
    ensures TrailBytes(c, 3) == [0x80 + c / 0x1000 % 0x40, 0x80 + c / 0x40 % 0x40, 0x80 + c % 0x40]
    ensures c / 0x40 / 0x40 == c / 0x1000 && c / 0x40 / 0x40 / 0x40 == c / 0x40000
  {
    var a := c / 0x40;
    var b := a / 0x40;
    assert b == c / 0x1000 && b / 0x40 == c / 0x40000;
    assert TrailBytes(c, 1) == TrailBytes(a, 0) + [0x80 + c % 0x40];
    assert TrailBytes(a, 1) == TrailBytes(b, 0) + [0x80 + a % 0x40];
    assert TrailBytes(c, 2) == TrailBytes(a, 1) + [0x80 + c % 0x40];
    assert TrailBytes(b, 1) == TrailBytes(b / 0x40, 0) + [0x80 + b % 0x40];
    assert TrailBytes(a, 2) == TrailBytes(b, 1) + [0x80 + a % 0x40];
    assert TrailBytes(c, 3) == TrailBytes(a, 2) + [0x80 + c % 0x40];
  }

  /** An encoded character decodes to itself, whatever is around it. */
  lemma DecodeEncoded(before: seq<Byte>, c: int, after: seq<Byte>)
    requires Scalar(c)
    ensures var s := before + Encode8(c) + after;
            WellFormedLength(s, |before|) == |Encode8(c)| && CharAt8(s, |before|) == c
  {
    var e, i := Encode8(c), |before|;
    var s := before + e + after;
    assert forall k :: 0 <= k < |e| ==> s[i + k] == e[k];
    SixBits(c);
    hide Encode8, WellFormedLength, CharAt8;
    if c < 0x80 {
      OneByteForm(s, i);
    } else if c < 0x800 {
      TwoByteForm(s, i, c);
    } else if c < 0x10000 {
      ThreeByteForm(s, i, c);
    } else {
      FourByteForm(s, i, c);
    }
  }

  lemma SixBits(c: nat)
    ensures c == c / 0x40 * 0x40 + c % 0x40
    ensures c == c / 0x1000 * 0x1000 + c / 0x40 % 0x40 * 0x40 + c % 0x40
    ensures c == c / 0x40000 * 0x40000 + c / 0x1000 % 0x40 * 0x1000 + c / 0x40 % 0x40 * 0x40 + c % 0x40
  {
    Quotients(c);
    var a := c / 0x40;
    var b := c / 0x1000;
    assert c == a * 0x40 + c % 0x40 && a == b * 0x40 + a % 0x40 && b == c / 0x40000 * 0x40 + b % 0x40;
  }

  lemma Quotients(c: nat)
    ensures c / 0x40 / 0x40 == c / 0x1000 && c / 0x1000 / 0x40 == c / 0x40000
  {
  }

  /** Groups of six bits are found again. */
  lemma Digits(a: nat, b: nat, c: nat, d: nat)
    requires b < 0x40 && c < 0x40 && d < 0x40
    ensures var v := a * 0x40000 + b * 0x1000 + c * 0x40 + d;
            v % 0x40 == d && v / 0x40 % 0x40 == c && v / 0x1000 % 0x40 == b && v / 0x40000 == a
            && v / 0x1000 == a * 0x40 + b && v / 0x40 == a * 0x1000 + b * 0x40 + c
  {
    var v := a * 0x40000 + b * 0x1000 + c * 0x40 + d;
    Quotients(v);
    assert v / 0x40 == a * 0x1000 + b * 0x40 + c;
    assert v / 0x40 / 0x40 == a * 0x40 + b;
  }

  lemma OneByteForm(s: seq<Byte>, i: int)
    requires 0 <= i < |s| && s[i] < 0x80
    ensures WellFormedLength(s, i) == 1 && CharAt8(s, i) == s[i]
  {
  }

  lemma TwoByteForm(s: seq<Byte>, i: int, c: int)
    requires 0 <= i && i + 1 < |s| && 0x80 <= c < 0x800 && c == c / 0x40 * 0x40 + c % 0x40
    requires s[i] == 0xc0 + c / 0x40 && s[i + 1] == 0x80 + c % 0x40
    ensures WellFormedLength(s, i) == 2 && CharAt8(s, i) == c
  {
    hide CharAt8, WellFormedLength;
    TwoBytes(s, i);
  }

  lemma ThreeByteForm(s: seq<Byte>, i: int, c: int)
    requires 0 <= i && i + 2 < |s| && 0x800 <= c < 0x10000 && Scalar(c)
    requires c == c / 0x1000 * 0x1000 + c / 0x40 % 0x40 * 0x40 + c % 0x40
    requires s[i] == 0xe0 + c / 0x1000 && s[i + 1] == 0x80 + c / 0x40 % 0x40 && s[i + 2] == 0x80 + c % 0x40
    ensures WellFormedLength(s, i) == 3 && CharAt8(s, i) == c
  {
    hide CharAt8, WellFormedLength;
    ThreeBytes(s, i);
  }

  lemma FourByteForm(s: seq<Byte>, i: int, c: int)
    requires 0 <= i && i + 3 < |s| && 0x10000 <= c <= 0x10ffff
    requires c == c / 0x40000 * 0x40000 + c / 0x1000 % 0x40 * 0x1000 + c / 0x40 % 0x40 * 0x40 + c % 0x40
    requires s[i] == 0xf0 + c / 0x40000 && s[i + 1] == 0x80 + c / 0x1000 % 0x40
    requires s[i + 2] == 0x80 + c / 0x40 % 0x40 && s[i + 3] == 0x80 + c % 0x40
    ensures WellFormedLength(s, i) == 4 && CharAt8(s, i) == c
  {
    hide CharAt8, WellFormedLength;
    FourBytes(s, i);
  }

  /** What is well-formed is the encoding of the character that it decodes to. */
  lemma EncodeDecoded(s: seq<Byte>, i: int)
    requires 0 <= i < |s| && WellFormedLength(s, i) > 0
    ensures Scalar(CharAt8(s, i)) && s[i..i + WellFormedLength(s, i)] == Encode8(CharAt8(s, i))
  {
    if s[i] < 0x80 {
    } else if s[i] < 0xe0 {
      EncodeTwo(s, i);
    } else if s[i] < 0xf0 {
      EncodeThree(s, i);
    } else {
      EncodeFour(s, i);
    }
  }

  lemma EncodeTwo(s: seq<Byte>, i: int)
    requires 0 <= i < |s| && 0x80 <= s[i] < 0xe0 && WellFormedLength(s, i) > 0
    ensures var c := CharAt8(s, i);
            WellFormedLength(s, i) == 2 && 0x80 <= c < 0x800 && s[i..i + 2] == [0xc0 + c / 0x40, 0x80 + c % 0x40]
  {
    TwoBytes(s, i);
    Digits(0, 0, s[i] - 0xc0, s[i + 1] - 0x80);
  }

  lemma EncodeThree(s: seq<Byte>, i: int)
    requires 0 <= i < |s| && 0xe0 <= s[i] < 0xf0 && WellFormedLength(s, i) > 0
    ensures var c := CharAt8(s, i);
            && WellFormedLength(s, i) == 3 && 0x800 <= c < 0x10000 && Scalar(c)
            && s[i..i + 3] == [0xe0 + c / 0x1000, 0x80 + c / 0x40 % 0x40, 0x80 + c % 0x40]
  {
    ThreeBytes(s, i);
    Digits(0, s[i] - 0xe0, s[i + 1] - 0x80, s[i + 2] - 0x80);
  }

  lemma EncodeFour(s: seq<Byte>, i: int)
    requires 0 <= i < |s| && 0xf0 <= s[i] && WellFormedLength(s, i) > 0
    ensures var c := CharAt8(s, i);
            && WellFormedLength(s, i) == 4 && 0x10000 <= c <= 0x10ffff
            && s[i..i + 4]
               == [0xf0 + c / 0x40000, 0x80 + c / 0x1000 % 0x40, 0x80 + c / 0x40 % 0x40, 0x80 + c % 0x40]
  {
    FourBytes(s, i);
    Digits(s[i] - 0xf0, s[i + 1] - 0x80, s[i + 2] - 0x80, s[i + 3] - 0x80);
  }

  /** Nothing is well-formed where no encoded character is. */
  lemma IllFormedIff(s: seq<Byte>, i: int)
    requires 0 <= i < |s|
    ensures WellFormedLength(s, i) == 0 <==> forall c :: Scalar(c) ==> !(Encode8(c) <= s[i..])
  {
    hide Encode8, WellFormedLength, CharAt8;
    if WellFormedLength(s, i) == 0 {
      forall c | Scalar(c) ensures !(Encode8(c) <= s[i..]) {
        if Encode8(c) <= s[i..] {
          assert s == s[..i] + Encode8(c) + s[i + |Encode8(c)|..];
          DecodeEncoded(s[..i], c, s[i + |Encode8(c)|..]);
        }
      }
    } else {
      EncodeDecoded(s, i);
      assert Encode8(CharAt8(s, i)) <= s[i..];
    }
  }

  lemma SpanOneChar(list: seq<int>, s: seq<Byte>, i: int, n: nat, c: int, contained: bool)
    requires ValidList(list) && 0 <= i < |s| && n == WellFormedLength(s, i) > 0 && c == CharAt8(s, i)
    ensures NaiveSpan(list, s, i, contained)
         == if InSet(list, c) <==> contained then NaiveSpan(list, s, i + n, contained) else i
  {
  }

  /** Trail bytes start nothing. */
  lemma TrailsIllFormed(s: seq<Byte>, i: int, n: nat)
    requires 0 <= i && Trails8(s, i, n) && WellFormedLength(s, i) == 0
    ensures AllIllFormed(s, i, i + n + 1)
  {
    forall k | i <= k < i + n + 1 ensures WellFormedLength(s, k) == 0 {
      if i < k { assert IsTrail8(s[k]); }
    }
  }

  // ----- spans of encoded text

  function EncodeAll(cs: seq<int>): seq<Byte>
    requires forall k :: 0 <= k < |cs| ==> Scalar(cs[k])
  {
    if cs == [] then [] else Encode8(cs[0]) + EncodeAll(cs[1..])
  }

  /** The characters before index `n` are all in the set, or all outside it, and the one at `n` is not like them. */
  ghost predicate LongestRun(list: seq<int>, cs: seq<int>, n: int, contained: bool)
    requires ValidList(list)
  {
    && 0 <= n <= |cs| && (forall k :: 0 <= k < n ==> (InSet(list, cs[k]) <==> contained))
    && (n < |cs| ==> (InSet(list, cs[n]) <==> !contained))
  }

  /** Spanning encoded text covers exactly the encodings of the longest run of its characters. */
  lemma {:induction false} SpanEncoded(list: seq<int>, before: seq<Byte>, cs: seq<int>, n: int, contained: bool)
    requires ValidList(list) && (forall k :: 0 <= k < |cs| ==> Scalar(cs[k])) && LongestRun(list, cs, n, contained)
    ensures NaiveSpan(list, before + EncodeAll(cs), |before|, contained) == |before| + |EncodeAll(cs[..n])|
    decreases |cs|
  {
    hide InSet, Encode8, WellFormedLength, CharAt8;
    var s := before + EncodeAll(cs);
    if cs != [] {
      var e := Encode8(cs[0]);
      assert s == before + e + EncodeAll(cs[1..]) == (before + e) + EncodeAll(cs[1..]);
      EncodedNonEmpty(cs[0]);
      DecodeEncoded(before, cs[0], EncodeAll(cs[1..]));
      SpanOneChar(list, s, |before|, |e|, cs[0], contained);
      if n > 0 {
        SpanEncoded(list, before + e, cs[1..], n - 1, contained);
        assert cs[..n][1..] == cs[1..][..n - 1];
      }
    }
  }

  lemma EncodedNonEmpty(c: int)
    requires Scalar(c)
    ensures 0 < |Encode8(c)| <= 4
  {
  }
}
