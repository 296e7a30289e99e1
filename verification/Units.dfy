/**
 The 16-bit units of an edit log and their meaning.

 0000uuuuuuuuuuuu  u+1 unchanged text units
 0mmmnnnccccccccc  (m = 1..6) c+1 replacements of m text units by n
 0111mmmmmmnnnnnn  one replacement of m by n; m or n = 61 has its length in one trail unit,
                   m or n = 62..63 in two trail units, with bit 30 in the head unit
 Trail units have bit 15 set.  Shifts and masks are written as arithmetic.
 */
module Units {
  import opened Spans

  type Unit = u: int | 0 <= u < 0x10000

  const MAX_UNCHANGED_LENGTH := 0x1000
  const MAX_UNCHANGED := 0xfff
  const MAX_SHORT_CHANGE_OLD_LENGTH := 6
  const MAX_SHORT_CHANGE_NEW_LENGTH := 7
  const SHORT_CHANGE_NUM_MASK := 0x1ff
  const MAX_SHORT_CHANGE := 0x6fff
  const LENGTH_IN_1TRAIL := 61
  const LENGTH_IN_2TRAIL := 62

  /** Number of trail units a 6-bit length field asks for. */
  function Trails(field: nat): nat {
    if field < LENGTH_IN_1TRAIL then 0 else if field < LENGTH_IN_2TRAIL then 1 else 2
  }

  function OldField(u: Unit): nat { u / 64 % 64 }

  function NewField(u: Unit): nat { u % 64 }

  function ShortNum(u: Unit): nat { u % 512 + 1 }

  function ShortSpan(u: Unit): Span { Span(true, u / 4096, u / 512 % 8) }

  predicate IsShort(u: Unit) { MAX_UNCHANGED < u <= MAX_SHORT_CHANGE }

  /** Number of units in the record that starts with head unit `u`. */
  function RecLen(u: Unit): (n: nat)
    ensures 1 <= n <= 5
  {
    if u <= MAX_SHORT_CHANGE then 1 else 1 + Trails(OldField(u)) + Trails(NewField(u))
  }

  predicate IsRec(r: seq<Unit>) {
    && r != []
    && r[0] <= 0x7fff
    && |r| == RecLen(r[0])
    && forall k :: 1 <= k < |r| ==> r[k] >= 0x8000
  }

  function Low15(u: Unit): nat { u % 0x8000 }

  /** The length denoted by a 6-bit field and the trail units that follow. */
  function LengthOf(field: nat, trail: seq<Unit>): nat
    requires Trails(field) <= |trail|
  {
    if field < LENGTH_IN_1TRAIL then field
    else if field < LENGTH_IN_2TRAIL then Low15(trail[0])
    else field % 2 * 0x4000_0000 + Low15(trail[0]) * 0x8000 + Low15(trail[1])
  }

  function Repeat(s: Span, n: nat): (r: seq<Span>) {
    seq(n, _ => s)
  }

  function RecSpans(r: seq<Unit>): seq<Span>
    requires IsRec(r)
  {
    if r[0] <= MAX_UNCHANGED then [Span(false, r[0] + 1, r[0] + 1)]
    else if r[0] <= MAX_SHORT_CHANGE then Repeat(ShortSpan(r[0]), ShortNum(r[0]))
    else [LongSpan(r)]
  }

  function LongSpan(r: seq<Unit>): Span
    requires IsRec(r) && r[0] > MAX_SHORT_CHANGE
  {
    Span(true, LengthOf(OldField(r[0]), r[1..]),
         LengthOf(NewField(r[0]), r[1 + Trails(OldField(r[0]))..]))
  }

  /** The units are a sequence of whole records. */
  predicate WellFormed(s: seq<Unit>) {
    s != [] ==>
      && s[0] <= 0x7fff
      && RecLen(s[0]) <= |s|
      && IsRec(s[..RecLen(s[0])])
      && WellFormed(s[RecLen(s[0])..])
  }

  /** The spans of all records in order, before joining. */
  function Raw(s: seq<Unit>): seq<Span>
    requires WellFormed(s)
  {
    if s == [] then [] else RecSpans(s[..RecLen(s[0])]) + Raw(s[RecLen(s[0])..])
  }

  /** The spans that an iterator of the given granularity delivers. */
  ghost function SpansOf(s: seq<Unit>, coarse: bool): seq<Span>
    requires WellFormed(s)
  {
    Norm(Raw(s), coarse)
  }

  // ----- splitting and extending unit sequences

  lemma {:induction false} WellFormedConcat(a: seq<Unit>, b: seq<Unit>)
    requires WellFormed(a) && WellFormed(b)
    ensures WellFormed(a + b)
  {
    hide RecLen, IsRec;
    if a == [] {
      assert a + b == b;
    } else {
      var n := RecLen(a[0]);
      WellFormedConcat(a[n..], b);
      assert (a + b)[..n] == a[..n];
      assert (a + b)[n..] == a[n..] + b;
    }
  }

  lemma FirstRec(s: seq<Unit>, n: nat)
    requires s != [] && WellFormed(s) && n == RecLen(s[0])
    ensures 0 < n <= |s| && IsRec(s[..n]) && WellFormed(s[n..])
    ensures Raw(s) == RecSpans(s[..n]) + Raw(s[n..])
  {
  }

  lemma ConsRec(r: seq<Unit>, t: seq<Unit>)
    requires IsRec(r) && WellFormed(t)
    ensures WellFormed(r + t) && Raw(r + t) == RecSpans(r) + Raw(t)
  {
    assert (r + t)[..|r|] == r && (r + t)[|r|..] == t;
    hide RecSpans;
  }

  lemma {:induction false} RawConcat(a: seq<Unit>, b: seq<Unit>)
    requires WellFormed(a) && WellFormed(b)
    ensures WellFormed(a + b) && Raw(a + b) == Raw(a) + Raw(b)
  {
    hide RecLen, IsRec, RecSpans, WellFormed, Raw;
    if a == [] {
      assert a + b == b;
      RawEmpty();
      assert [] + Raw(b) == Raw(b);
    } else {
      var n := RecLen(a[0]);
      FirstRec(a, n);
      RawConcat(a[n..], b);
      ConsRec(a[..n], a[n..] + b);
      assert a + b == a[..n] + (a[n..] + b);
    }
  }

  lemma RawEmpty()
    ensures WellFormed([]) && Raw([]) == []
  {
  }

  lemma RawRec(r: seq<Unit>)
    requires IsRec(r)
    ensures WellFormed(r) && Raw(r) == RecSpans(r)
  {
    assert r[..|r|] == r;
    assert r[|r|..] == [];
  }

  lemma RawSnoc(a: seq<Unit>, r: seq<Unit>)
    requires WellFormed(a) && IsRec(r)
    ensures WellFormed(a + r) && Raw(a + r) == Raw(a) + RecSpans(r)
  {
    RawRec(r);
    RawConcat(a, r);
  }

  /** Reading one record at position `i` moves to the next record boundary. */
  lemma RawForward(s: seq<Unit>, i: nat, n: nat)
    requires i < |s| && WellFormed(s[..i]) && WellFormed(s[i..])
    requires n == RecLen(s[i])
    ensures i + n <= |s| && IsRec(s[i..i + n])
    ensures WellFormed(s[..i + n]) && WellFormed(s[i + n..])
    ensures Raw(s[..i + n]) == Raw(s[..i]) + RecSpans(s[i..i + n])
    ensures Raw(s[i..]) == RecSpans(s[i..i + n]) + Raw(s[i + n..])
  {
    hide RecLen, IsRec, RecSpans, WellFormed, Raw;
    FirstRec(s[i..], n);
    assert s[i..][..n] == s[i..i + n];
    assert s[i..][n..] == s[i + n..];
    RawSnoc(s[..i], s[i..i + n]);
    assert s[..i] + s[i..i + n] == s[..i + n];
  }

  /** A non-empty unit sequence ends in a whole record. */
  lemma {:induction false} LastRec(s: seq<Unit>) returns (h: nat)
    requires s != [] && WellFormed(s)
    ensures h < |s| && IsRec(s[h..]) && WellFormed(s[..h])
    ensures Raw(s) == Raw(s[..h]) + RecSpans(s[h..])
  {
    hide RecLen, RecSpans, IsRec, WellFormed, Raw;
    var n := RecLen(s[0]);
    FirstRec(s, n);
    RawEmpty();
    if n == |s| {
      h := 0;
      assert s[..n] == s == s[0..];
      assert s[n..] == [] == s[..0];
    } else {
      var h' := LastRec(s[n..]);
      h := n + h';
      assert s[h..] == s[n..][h'..];
      assert s[n..h] == s[n..][..h'];
      assert s[..n] + s[n..h] == s[..h];
      RawRec(s[..n]);
      RawConcat(s[..n], s[n..h]);
    }
  }

  /** Stepping back over the record that ends at position `i`. */
  lemma RawBackward(s: seq<Unit>, i: nat) returns (h: nat)
    requires 0 < i <= |s| && WellFormed(s[..i]) && WellFormed(s[i..])
    ensures h < i && s[h] <= 0x7fff && IsRec(s[h..i]) && i == h + RecLen(s[h])
    ensures WellFormed(s[..h]) && WellFormed(s[h..])
    ensures forall k :: h < k < i ==> s[k] >= 0x8000
    ensures Raw(s[..i]) == Raw(s[..h]) + RecSpans(s[h..i])
    ensures Raw(s[h..]) == RecSpans(s[h..i]) + Raw(s[i..])
  {
    hide RecLen, RecSpans, IsRec, WellFormed, Raw;
    h := LastRec(s[..i]);
    assert s[..i][h..] == s[h..i];
    assert s[..i][..h] == s[..h];
    RecShape(s[h..i]);
    assert forall k :: h < k < i ==> s[k] == s[h..i][k - h];
    ConsRec(s[h..i], s[i..]);
    assert s[h..i] + s[i..] == s[h..];
  }

  lemma RecShape(r: seq<Unit>)
    requires IsRec(r)
    ensures 0 < |r| == RecLen(r[0]) && r[0] <= 0x7fff && forall k :: 0 < k < |r| ==> r[k] >= 0x8000
  {
  }

  lemma {:induction false} RawSound(s: seq<Unit>)
    requires WellFormed(s)
    ensures Sound(Raw(s))
  {
    if s != [] {
      RawSound(s[RecLen(s[0])..]);
      assert Sound(RecSpans(s[..RecLen(s[0])]));
    }
  }

  lemma SpansOfSound(s: seq<Unit>, coarse: bool)
    requires WellFormed(s)
    ensures Sound(SpansOf(s, coarse))
  {
    RawSound(s);
    PushAllSound([], Raw(s), coarse);
  }
}
