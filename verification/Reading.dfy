/**
 Positions in a unit sequence: which unit indexes lie between two delivered spans, and
 which span lies between two neighbouring such indexes.
 */
module Reading {
  import opened Spans
  import opened Units

  /** Index `i` lies between two records. */
  ghost predicate Split(s: seq<Unit>, i: nat) {
    i <= |s| && WellFormed(s[..i]) && WellFormed(s[i..])
  }

  /** Index `i` lies between two spans of the given granularity. */
  ghost predicate Boundary(s: seq<Unit>, i: nat, coarse: bool) {
    Split(s, i) && Seam(Raw(s[..i]), Raw(s[i..]), coarse)
  }

  /** The spans before index `i`. */
  ghost function Before(s: seq<Unit>, i: nat, coarse: bool): seq<Span>
    requires Split(s, i)
  {
    SpansOf(s[..i], coarse)
  }

  lemma BoundaryEnds(s: seq<Unit>, coarse: bool)
    requires WellFormed(s)
    ensures Boundary(s, 0, coarse) && Before(s, 0, coarse) == []
    ensures Boundary(s, |s|, coarse) && Before(s, |s|, coarse) == SpansOf(s, coarse)
  {
    assert s[..0] == [] && s[0..] == s && s[..|s|] == s && s[|s|..] == [];
  }

  /** What is before a boundary is a prefix of all the spans. */
  lemma BoundaryPrefix(s: seq<Unit>, i: nat, coarse: bool)
    requires Boundary(s, i, coarse)
    ensures WellFormed(s)
    ensures Before(s, i, coarse) <= SpansOf(s, coarse)
    ensures |Before(s, i, coarse)| + |SpansOf(s[i..], coarse)| == |SpansOf(s, coarse)|
  {
    hide WellFormed, Raw, Push, PushAll;
    RawConcat(s[..i], s[i..]);
    assert s[..i] + s[i..] == s;
    NormAppend(Raw(s[..i]), Raw(s[i..]), coarse);
  }

  lemma RawNonEmpty(s: seq<Unit>)
    requires s != [] && WellFormed(s)
    ensures Raw(s) != [] && Raw(s)[0].changed == (s[0] > MAX_UNCHANGED)
    ensures Raw(s)[|Raw(s)| - 1].changed == (s[|s| - 1] > MAX_UNCHANGED)
  {
    RecFlags(s[..RecLen(s[0])]);
    var h := LastRec(s);
    RecFlags(s[h..]);
  }

  lemma RecFlags(r: seq<Unit>)
    requires IsRec(r)
    ensures RecSpans(r) != [] && Uniform(RecSpans(r), r[0] > MAX_UNCHANGED)
    ensures (r[|r| - 1] > MAX_UNCHANGED) == (r[0] > MAX_UNCHANGED)
  {
  }

  /** Between index `i` and index `j` lie the whole records whose spans are `seg`. */
  ghost predicate Segment(s: seq<Unit>, i: nat, j: nat, seg: seq<Span>) {
    && i <= j && Split(s, i) && Split(s, j)
    && Raw(s[..j]) == Raw(s[..i]) + seg
    && Raw(s[i..]) == seg + Raw(s[j..])
  }

  lemma SegmentEmpty(s: seq<Unit>, i: nat)
    requires Split(s, i)
    ensures Segment(s, i, i, [])
  {
    hide WellFormed, Raw;
  }

  lemma SegmentForward(s: seq<Unit>, i: nat, j: nat, seg: seq<Span>, n: nat)
    requires Segment(s, i, j, seg) && j < |s| && n == RecLen(s[j])
    ensures j + n <= |s| && IsRec(s[j..j + n])
    ensures Segment(s, i, j + n, seg + RecSpans(s[j..j + n]))
  {
    hide RecSpans, RecLen, IsRec, WellFormed, Raw;
    RawForward(s, j, n);
  }

  lemma SegmentBackward(s: seq<Unit>, i: nat, j: nat, seg: seq<Span>) returns (h: nat)
    requires Segment(s, i, j, seg) && 0 < i
    ensures h < i && s[h] <= 0x7fff && IsRec(s[h..i]) && i == h + RecLen(s[h])
    ensures forall k :: h < k < i ==> s[k] >= 0x8000
    ensures Segment(s, h, j, RecSpans(s[h..i]) + seg)
  {
    hide RecSpans, RecLen, IsRec, WellFormed, Raw;
    h := RawBackward(s, i);
  }

  /** A maximal run of joining records between two indexes is one span, and both indexes are boundaries. */
  lemma SegmentJoined(s: seq<Unit>, i: nat, j: nat, seg: seq<Span>, changed: bool, coarse: bool)
    requires Segment(s, i, j, seg) && seg != [] && Uniform(seg, changed) && (changed ==> coarse)
    requires Seam(Raw(s[..i]), seg, coarse) && Seam(seg, Raw(s[j..]), coarse)
    ensures Boundary(s, i, coarse) && Boundary(s, j, coarse)
    ensures Before(s, j, coarse) == Before(s, i, coarse) + [Span(changed, SumOld(seg), SumNew(seg))]
  {
    hide WellFormed, Raw, Push, PushAll;
    NormAppend(Raw(s[..i]), seg, coarse);
    NormUniform(seg, changed, coarse);
  }

  /** At fine granularity the changes of one record are spans of their own. */
  lemma SegmentApart(s: seq<Unit>, i: nat, j: nat, seg: seq<Span>)
    requires Segment(s, i, j, seg) && seg != [] && Uniform(seg, true)
    ensures Boundary(s, i, false) && Boundary(s, j, false)
    ensures Before(s, j, false) == Before(s, i, false) + seg
  {
    hide WellFormed, Raw, Push, PushAll;
    NormAppend(Raw(s[..i]), seg, false);
    NormFineChanges(seg);
  }

  /** The seams of a segment, seen from the neighbouring units. */
  lemma SeamAfter(s: seq<Unit>, j: nat, seg: seq<Span>, changed: bool, coarse: bool)
    requires Split(s, j) && Uniform(seg, changed)
    requires j < |s| ==> (s[j] > MAX_UNCHANGED) != changed
    ensures Seam(seg, Raw(s[j..]), coarse)
  {
    if j < |s| { RawNonEmpty(s[j..]); }
  }

  lemma SeamBefore(s: seq<Unit>, i: nat, seg: seq<Span>, changed: bool, coarse: bool)
    requires Split(s, i) && Uniform(seg, changed)
    requires 0 < i ==> (s[i - 1] > MAX_UNCHANGED) != changed
    ensures Seam(Raw(s[..i]), seg, coarse)
  {
    if 0 < i { RawNonEmpty(s[..i]); }
  }

  lemma {:induction false} SumsRepeat(x: Span, n: nat)
    ensures SumOld(Repeat(x, n)) == n * x.oldLen
    ensures SumNew(Repeat(x, n)) == n * x.newLen
  {
    if n > 0 {
      SumsRepeat(x, n - 1);
      assert Repeat(x, n)[..n - 1] == Repeat(x, n - 1);
    }
  }
}
