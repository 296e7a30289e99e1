/**
 Where two edit logs can be cut at the same place: the order of cuts, and stretches without any.
 */
module Cuts {
  import opened Spans
  import opened Compose

  lemma CutBounds(ss: seq<Span>, j: int, d: int, x: int, y: int)
    requires Sound(ss) && CutAt(ss, j, d, x, y)
    ensures SumOld(ss[..j]) <= x && SumNew(ss[..j]) <= y
    ensures j < |ss| ==> x <= SumOld(ss[..j + 1]) && y <= SumNew(ss[..j + 1])
  {
    if j < |ss| { SumsStep(ss, j); }
  }

  lemma CutOrder(ss: seq<Span>, j: int, d: int, x: int, y: int, j': int, d': int, x': int, y': int)
    requires Sound(ss) && CutAt(ss, j, d, x, y) && CutAt(ss, j', d', x', y')
    ensures j < j' ==> x <= x' && y <= y'
    ensures j == j' ==> x' - x == y' - y
  {
    if j < j' {
      CutBounds(ss, j, d, x, y);
      CutBounds(ss, j', d', x', y');
      SumsMonotone(ss, j + 1, j');
    }
  }

  lemma CutWithin(ss: seq<Span>, x: int, y: int)
    requires Sound(ss) && Cut(ss, x, y)
    ensures x <= SumOld(ss) && y <= SumNew(ss)
  {
    var j, d :| CutAt(ss, j, d, x, y);
    CutBounds(ss, j, d, x, y);
    assert ss[..|ss|] == ss;
    if j < |ss| { SumsMonotone(ss, j + 1, |ss|); }
  }

  /** Cuts do not cross. */
  lemma CutMonotone(ss: seq<Span>, x: int, y: int, x': int, y': int)
    requires Sound(ss) && Cut(ss, x, y) && Cut(ss, x', y')
    ensures y < y' ==> x <= x'
    ensures x < x' ==> y <= y'
  {
    var j, d :| CutAt(ss, j, d, x, y);
    var j', d' :| CutAt(ss, j', d', x', y');
    hide CutAt;
    CutOrder(ss, j, d, x, y, j', d', x', y');
    CutOrder(ss, j', d', x', y', j, d, x, y);
  }

  /** There is no cut inside a change. */
  lemma InsideChange(ss: seq<Span>, k: int, x: int, y: int)
    requires Sound(ss) && 0 <= k < |ss| && ss[k].changed && Cut(ss, x, y)
    ensures !(SumOld(ss[..k]) < x < SumOld(ss[..k + 1])) && !(SumNew(ss[..k]) < y < SumNew(ss[..k + 1]))
  {
    var j, d :| CutAt(ss, j, d, x, y);
    CutBounds(ss, j, d, x, y);
    if j < k { SumsMonotone(ss, j + 1, k); }
    if k < j { SumsMonotone(ss, k + 1, j); }
  }

  /** Where text of the new string follows, no further cut has the same new index. */
  lemma LastCut(ss: seq<Span>, i: int, e: int, x: int, y: int, x': int)
    requires Sound(ss) && CutAt(ss, i, e, x, y) && i < |ss| && e < ss[i].newLen && Cut(ss, x', y)
    ensures x' <= x
  {
    var j, d :| CutAt(ss, j, d, x', y);
    CutOrder(ss, j, d, x', y, i, e, x, y);
    if i < j {
      CutBounds(ss, j, d, x', y);
      SumsStep(ss, i);
      SumsMonotone(ss, i + 1, j);
    }
  }

  /** Where text of the new string comes before, no earlier cut has the same new index. */
  lemma FirstCut(ss: seq<Span>, i: int, e: int, x: int, y: int, x': int)
    requires Sound(ss) && CutAt(ss, i, e, x, y) && (e > 0 || (i > 0 && ss[i - 1].newLen > 0)) && Cut(ss, x', y)
    ensures x <= x'
  {
    hide SumOld, SumNew;
    var j, d :| CutAt(ss, j, d, x', y);
    CutOrder(ss, i, e, x, y, j, d, x', y);
    if j < i {
      CutBounds(ss, j, d, x', y);
      SumsMonotone(ss, j + 1, i);
      if e == 0 {
        SumsStep(ss, i - 1);
        if j < i - 1 { SumsMonotone(ss, j + 1, i - 1); }
      }
    }
  }

  // ----- the same for the old string

  function Flip(ss: seq<Span>): seq<Span> {
    seq(|ss|, k requires 0 <= k < |ss| => Span(ss[k].changed, ss[k].newLen, ss[k].oldLen))
  }

  lemma {:induction false} FlipSums(ss: seq<Span>, k: int)
    requires 0 <= k <= |ss|
    ensures SumOld(Flip(ss)[..k]) == SumNew(ss[..k]) && SumNew(Flip(ss)[..k]) == SumOld(ss[..k])
  {
    if k > 0 {
      FlipSums(ss, k - 1);
      SumsStep(ss, k - 1);
      SumsStep(Flip(ss), k - 1);
    }
  }

  lemma FlipCutAt(ss: seq<Span>, k: int, d: int, x: int, y: int)
    requires Sound(ss)
    ensures CutAt(ss, k, d, x, y) ==> CutAt(Flip(ss), k, d, y, x)
  {
    if 0 <= k <= |ss| { FlipSums(ss, k); }
  }

  lemma FlipCut(ss: seq<Span>, x: int, y: int)
    requires Sound(ss) && Cut(ss, x, y)
    ensures Cut(Flip(ss), y, x)
  {
    var k, d :| CutAt(ss, k, d, x, y);
    FlipCutAt(ss, k, d, x, y);
  }

  lemma LastCutOld(ss: seq<Span>, i: int, e: int, x: int, y: int, y': int)
    requires Sound(ss) && CutAt(ss, i, e, x, y) && i < |ss| && e < ss[i].oldLen && Cut(ss, x, y')
    ensures y' <= y
  {
    FlipCutAt(ss, i, e, x, y);
    FlipCut(ss, x, y');
    LastCut(Flip(ss), i, e, y, x, y');
  }

  lemma FirstCutOld(ss: seq<Span>, i: int, e: int, x: int, y: int, y': int)
    requires Sound(ss) && CutAt(ss, i, e, x, y) && (e > 0 || (i > 0 && ss[i - 1].oldLen > 0)) && Cut(ss, x, y')
    ensures y <= y'
  {
    FlipCutAt(ss, i, e, x, y);
    FlipCut(ss, x, y');
    FirstCut(Flip(ss), i, e, y, x, y');
  }

  // ----- two logs

  /** String b has no place strictly between `low` and `high` where both logs can be cut. */
  ghost predicate NoCutBetween(ab: seq<Span>, bc: seq<Span>, low: int, high: int) {
    forall x, y, z :: low < y < high && Cut(ab, x, y) ==> !Cut(bc, y, z)
  }

  /** No common cut lies within the change from (x0, z0) to (x1, z1), except at its ends. */
  ghost predicate Uncut(ab: seq<Span>, bc: seq<Span>, x0: int, z0: int, x1: int, z1: int) {
    forall x, z :: CommonCut(ab, bc, x, z) && x0 <= x <= x1 && z0 <= z <= z1 ==>
      (x == x0 && z == z0) || (x == x1 && z == z1)
  }

  /** Where text is deleted at one place of string b, no insertion at that place follows. */
  ghost predicate InsertionsFirst(ab: seq<Span>, bc: seq<Span>, x0: int, z0: int, x1: int, z1: int) {
    x0 < x1 && z0 == z1 ==>
      forall y, z :: Cut(ab, x0, y) && Cut(ab, x1, y) && Cut(bc, y, z0) && Cut(bc, y, z) ==> z <= z0
  }

  /** The change from (x0, z0) to (x1, z1) is as small as a change of the composition can be, and in its place. */
  ghost predicate Tight(ab: seq<Span>, bc: seq<Span>, x0: int, z0: int, x1: int, z1: int) {
    Uncut(ab, bc, x0, z0, x1, z1) && InsertionsFirst(ab, bc, x0, z0, x1, z1)
  }

  /** The last cut at its place in string b, on both sides. */
  ghost predicate LastHere(ab: seq<Span>, bc: seq<Span>, x0: int, y0: int, z0: int) {
    && Cut(ab, x0, y0) && Cut(bc, y0, z0)
    && (forall x :: Cut(ab, x, y0) ==> x <= x0) && (forall z :: Cut(bc, y0, z) ==> z <= z0)
  }

  /** The first one. */
  ghost predicate FirstHere(ab: seq<Span>, bc: seq<Span>, x1: int, y1: int, z1: int) {
    && Cut(ab, x1, y1) && Cut(bc, y1, z1)
    && (forall x :: Cut(ab, x, y1) ==> x1 <= x) && (forall z :: Cut(bc, y1, z) ==> z1 <= z)
  }

  /** From the last cut at one place to the first cut at the next common place. */
  lemma StretchTight(ab: seq<Span>, bc: seq<Span>, x0: int, y0: int, z0: int, x1: int, y1: int, z1: int)
    requires Sound(ab) && Sound(bc) && y0 < y1 && NoCutBetween(ab, bc, y0, y1)
    requires LastHere(ab, bc, x0, y0, z0) && FirstHere(ab, bc, x1, y1, z1)
    ensures Tight(ab, bc, x0, z0, x1, z1)
  {
    hide Cut;
    forall x, z | CommonCut(ab, bc, x, z) && x0 <= x <= x1 && z0 <= z <= z1
      ensures (x == x0 && z == z0) || (x == x1 && z == z1)
    {
      var y :| Cut(ab, x, y) && Cut(bc, y, z);
      CutMonotone(ab, x, y, x0, y0);
      CutMonotone(bc, y, z, y0, z0);
      CutMonotone(ab, x1, y1, x, y);
      CutMonotone(bc, y1, z1, y, z);
    }
    forall y | x0 < x1 ensures !(Cut(ab, x0, y) && Cut(ab, x1, y) && Cut(bc, y, z0)) {
      NotOnePlace(ab, bc, x0, y0, z0, x1, y1, z1, y);
    }
  }

  lemma NotOnePlace(ab: seq<Span>, bc: seq<Span>, x0: int, y0: int, z0: int, x1: int, y1: int, z1: int, y: int)
    requires Sound(ab) && Sound(bc) && y0 < y1 && NoCutBetween(ab, bc, y0, y1) && x0 < x1
    requires LastHere(ab, bc, x0, y0, z0) && FirstHere(ab, bc, x1, y1, z1)
    ensures !(Cut(ab, x0, y) && Cut(ab, x1, y) && Cut(bc, y, z0))
  {
    hide Cut;
    if Cut(ab, x0, y) && Cut(ab, x1, y) {
      CutMonotone(ab, x0, y, x1, y1);
      CutMonotone(ab, x0, y0, x1, y);
    }
  }

  /** An insertion by itself. */
  lemma InsertionTight(ab: seq<Span>, bc: seq<Span>, k: int, x: int)
    requires Sound(bc) && 0 <= k < |bc| && bc[k].changed
    ensures Tight(ab, bc, x, SumNew(bc[..k]), x, SumNew(bc[..k]) + bc[k].newLen)
  {
    SumsStep(bc, k);
    forall x', z | CommonCut(ab, bc, x', z) ensures !(SumNew(bc[..k]) < z < SumNew(bc[..k]) + bc[k].newLen) {
      var y :| Cut(ab, x', y) && Cut(bc, y, z);
      InsideChange(bc, k, y, z);
    }
  }

  /** A deletion by itself, where no insertion follows. */
  lemma DeletionTight(ab: seq<Span>, bc: seq<Span>, k: int, z0: int)
    requires Sound(ab) && 0 <= k < |ab| && ab[k].changed && ab[k].newLen == 0
    requires forall z :: Cut(bc, SumNew(ab[..k]), z) ==> z <= z0
    ensures Tight(ab, bc, SumOld(ab[..k]), z0, SumOld(ab[..k]) + ab[k].oldLen, z0)
  {
    SumsStep(ab, k);
    var x0, y0 := SumOld(ab[..k]), SumNew(ab[..k]);
    var x1 := x0 + ab[k].oldLen;
    assert CutAt(ab, k, 0, x0, y0) && CutAt(ab, k + 1, 0, x1, y0);
    forall x, z | CommonCut(ab, bc, x, z) ensures !(x0 < x < x1) {
      var y :| Cut(ab, x, y) && Cut(bc, y, z);
      InsideChange(ab, k, x, y);
    }
    assert Cut(ab, x0, y0) && Cut(ab, x1, y0);
    hide Cut;
    forall y, z | x0 < x1 && Cut(ab, x0, y) && Cut(ab, x1, y) && Cut(bc, y, z0) && Cut(bc, y, z) ensures z <= z0 {
      CutMonotone(ab, x0, y, x1, y0);
      CutMonotone(ab, x0, y0, x1, y);
    }
  }
}
