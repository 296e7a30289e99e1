/**
 The composition of two edit logs is determined: there is only one log with its totals, its unchanged text and
 changes that cannot be split.
 */
module MergeUnique {
  import opened Basics
  import opened Spans
  import opened Compose
  import opened Cuts
  import opened MergeSteps

  /** Text from a border on maps to text from that border on. */
  lemma ImageFrom(ss: seq<Span>, k: int, i: int)
    requires Sound(ss) && 0 <= k <= |ss| && SumOld(ss[..k]) <= i
    ensures Image(ss, i).None? || Image(ss, i).value >= SumNew(ss[..k])
  {
    assert ss == ss[..k] + ss[k..];
    ImageAppend(ss[..k], ss[k..], i);
    ImageRange(ss[k..], i - SumOld(ss[..k]));
  }

  /** Text of one span. */
  lemma ImageIn(ss: seq<Span>, k: int, i: int)
    requires 0 <= k < |ss| && SumOld(ss[..k]) <= i < SumOld(ss[..k]) + ss[k].oldLen
    ensures Image(ss, i) == if ss[k].changed then None else Some(i - SumOld(ss[..k]) + SumNew(ss[..k]))
  {
    assert ss == ss[..k] + ([ss[k]] + ss[k + 1..]);
    ImageAppend(ss[..k], [ss[k]] + ss[k + 1..], i);
    ImageCons(ss[k], ss[k + 1..], i - SumOld(ss[..k]));
  }

  /** Text at the start of a change is not unchanged text at that place. */
  lemma ImageAtChange(ss: seq<Span>, k: int)
    requires Sound(ss) && 0 <= k < |ss| && ss[k].changed && (ss[k].oldLen > 0 || ss[k].newLen > 0)
    ensures Image(ss, SumOld(ss[..k])) != Some(SumNew(ss[..k]))
  {
    if ss[k].oldLen > 0 {
      ImageIn(ss, k, SumOld(ss[..k]));
    } else {
      SumsStep(ss, k);
      ImageFrom(ss, k + 1, SumOld(ss[..k]));
    }
  }

  lemma SameImages(ab: seq<Span>, bc: seq<Span>, p: seq<Span>, q: seq<Span>, i: int)
    requires Composes(ab, bc, p) && Composes(ab, bc, q) && 0 <= i
    ensures Image(p, i) == Image(q, i)
  {
    ComposedImage(p, ab, bc, i);
    ComposedImage(q, ab, bc, i);
  }

  lemma ChangeAt(ab: seq<Span>, bc: seq<Span>, p: seq<Span>, k: int)
    requires Composes(ab, bc, p) && 0 <= k < |p| && p[k].changed
    ensures p[k].oldLen > 0 || p[k].newLen > 0
    ensures var x, z := SumOld(p[..k]), SumNew(p[..k]); Tight(ab, bc, x, z, x + p[k].oldLen, z + p[k].newLen)
  {
    hide Tight, Image, Borders;
    assert TightAt(ab, bc, p, k);
  }

  lemma BorderAt(ab: seq<Span>, bc: seq<Span>, p: seq<Span>, k: int)
    requires Composes(ab, bc, p) && 0 <= k <= |p|
    ensures CommonCut(ab, bc, SumOld(p[..k]), SumNew(p[..k]))
  {
    hide CommonCut, Image, AllTight;
  }

  /** An unchanged span does not stop where the other log goes on with unchanged text. */
  lemma UnchangedNotShorter(ab: seq<Span>, bc: seq<Span>, p: seq<Span>, q: seq<Span>, k: int)
    requires Composition(ab, bc, p) && Composition(ab, bc, q) && 0 <= k < |p| && k < |q|
    requires SumOld(p[..k]) == SumOld(q[..k]) && SumNew(p[..k]) == SumNew(q[..k])
    requires !p[k].changed && !q[k].changed
    ensures p[k].oldLen >= q[k].oldLen
  {
    hide Composes, SumOld, SumNew, Canonical;
    var i := SumOld(p[..k]) + p[k].oldLen;
    SumsStep(p, k);
    SumsStep(q, k);
    assert p[k].oldLen == p[k].newLen && q[k].oldLen == q[k].newLen;
    hide Sound;
    if p[k].oldLen < q[k].oldLen {
      ImageIn(q, k, i);
      SameImages(ab, bc, p, q, i);
      NextIsChange(ab, bc, p, q, k);
      ChangeAt(ab, bc, p, k + 1);
      ImageAtChange(p, k + 1);
    }
  }

  lemma NextIsChange(ab: seq<Span>, bc: seq<Span>, p: seq<Span>, q: seq<Span>, k: int)
    requires Composition(ab, bc, p) && Composition(ab, bc, q) && 0 <= k < |p| && k < |q| && !p[k].changed
    requires SumOld(p[..k + 1]) < SumOld(q[..k + 1])
    ensures k + 1 < |p| && p[k + 1].changed
  {
    SumsMonotone(q, k + 1, |q|);
    assert p[..|p|] == p && q[..|q|] == q;
    hide Image, Borders, AllTight, Sound;
    if k + 1 < |p| { assert !Mergeable(p[k], p[k + 1], false); }
  }

  /** Two changes from the same place cannot pass each other. */
  lemma NotCrossing(ab: seq<Span>, bc: seq<Span>, x: int, z: int, d: nat, e: nat, d': nat, e': nat)
    requires Sound(ab) && Sound(bc) && Tight(ab, bc, x, z, x + d, z + e) && Tight(ab, bc, x, z, x + d', z + e')
    requires CommonCut(ab, bc, x + d, z + e) && CommonCut(ab, bc, x + d', z + e')
    ensures !(d < d' && e' < e)
  {
    hide Cut, Uncut, InsertionsFirst;
    var y :| Cut(ab, x + d, y) && Cut(bc, y, z + e);
    var y' :| Cut(ab, x + d', y') && Cut(bc, y', z + e');
    CutMonotone(ab, x + d, y, x + d', y');
    CutMonotone(bc, y', z + e', y, z + e);
    if y == y' { NotCrossingAt(ab, bc, x, z, d, e, d', e', y); }
  }

  lemma NotCrossingAt(ab: seq<Span>, bc: seq<Span>, x: int, z: int, d: nat, e: nat, d': nat, e': nat, y: int)
    requires Uncut(ab, bc, x, z, x + d, z + e) && InsertionsFirst(ab, bc, x, z, x + d', z + e')
    requires Cut(ab, x + d, y) && Cut(bc, y, z + e) && Cut(ab, x + d', y) && Cut(bc, y, z + e')
    ensures !(d < d' && e' < e)
  {
    hide Cut;
    CommonCutAt(ab, bc, x + d, y, z + e');
    hide CommonCut;
  }

  lemma CommonCutAt(ab: seq<Span>, bc: seq<Span>, x: int, y: int, z: int)
    ensures Cut(ab, x, y) && Cut(bc, y, z) ==> CommonCut(ab, bc, x, z)
  {
  }

  lemma SameChange(ab: seq<Span>, bc: seq<Span>, x: int, z: int, d: nat, e: nat, d': nat, e': nat)
    requires Sound(ab) && Sound(bc) && Tight(ab, bc, x, z, x + d, z + e) && Tight(ab, bc, x, z, x + d', z + e')
    requires CommonCut(ab, bc, x + d, z + e) && CommonCut(ab, bc, x + d', z + e')
    requires (d > 0 || e > 0) && (d' > 0 || e' > 0)
    ensures d == d' && e == e'
  {
    hide CommonCut, InsertionsFirst;
    NotCrossing(ab, bc, x, z, d, e, d', e');
    NotCrossing(ab, bc, x, z, d', e', d, e);
  }

  /** The next span is the same in both logs. */
  lemma SameNext(ab: seq<Span>, bc: seq<Span>, p: seq<Span>, q: seq<Span>, k: int)
    requires Sound(ab) && Sound(bc) && Composition(ab, bc, p) && Composition(ab, bc, q)
    requires 0 <= k < |p| && k < |q| && p[..k] == q[..k]
    ensures p[k] == q[k]
  {
    NotSameKind(ab, bc, p, q, k);
    NotSameKind(ab, bc, q, p, k);
    if p[k].changed {
      BothChanged(ab, bc, p, q, k);
    } else {
      UnchangedNotShorter(ab, bc, p, q, k);
      UnchangedNotShorter(ab, bc, q, p, k);
    }
    hide Composes, Canonical;
  }

  lemma BothChanged(ab: seq<Span>, bc: seq<Span>, p: seq<Span>, q: seq<Span>, k: int)
    requires Sound(ab) && Sound(bc) && Composition(ab, bc, p) && Composition(ab, bc, q)
    requires 0 <= k < |p| && k < |q| && p[..k] == q[..k] && p[k].changed && q[k].changed
    ensures p[k] == q[k]
  {
    hide Composes, Tight, CommonCut, Canonical, SumOld, SumNew, Sound;
    SumsStep(p, k);
    SumsStep(q, k);
    ChangeAt(ab, bc, p, k);
    ChangeAt(ab, bc, q, k);
    BorderAt(ab, bc, p, k + 1);
    BorderAt(ab, bc, q, k + 1);
    SameChange(ab, bc, SumOld(p[..k]), SumNew(p[..k]), p[k].oldLen, p[k].newLen, q[k].oldLen, q[k].newLen);
  }

  /** A change in one log does not meet unchanged text in the other. */
  lemma NotSameKind(ab: seq<Span>, bc: seq<Span>, p: seq<Span>, q: seq<Span>, k: int)
    requires Composition(ab, bc, p) && Composition(ab, bc, q) && 0 <= k < |p| && k < |q| && p[..k] == q[..k]
    ensures p[k].changed ==> q[k].changed
  {
    hide Composes, SumOld, SumNew;
    if p[k].changed && !q[k].changed {
      ChangeAt(ab, bc, p, k);
      SameImages(ab, bc, p, q, SumOld(q[..k]));
      ImageIn(q, k, SumOld(q[..k]));
      ImageAtChange(p, k);
    }
  }

  lemma SameEnd(ab: seq<Span>, bc: seq<Span>, p: seq<Span>, q: seq<Span>)
    requires Composition(ab, bc, p) && Composition(ab, bc, q) && |p| <= |q| && q[..|p|] == p
    ensures |p| == |q|
  {
    hide Composes, SumOld, SumNew;
    if |p| < |q| {
      var k := |p|;
      SumsStep(q, k);
      SumsMonotone(q, k + 1, |q|);
      assert q[..|q|] == q;
      if q[k].changed { ChangeAt(ab, bc, q, k); }
      SameTotals(ab, bc, p, q);
    }
  }

  lemma SameTotals(ab: seq<Span>, bc: seq<Span>, p: seq<Span>, q: seq<Span>)
    requires Composes(ab, bc, p) && Composes(ab, bc, q)
    ensures SumOld(p) == SumOld(q) && SumNew(p) == SumNew(q)
  {
    hide Image, Borders, AllTight;
  }

  /** There is only one composition. */
  lemma {:induction false} CompositionUnique(ab: seq<Span>, bc: seq<Span>, p: seq<Span>, q: seq<Span>, k: int)
    requires Sound(ab) && Sound(bc) && Composition(ab, bc, p) && Composition(ab, bc, q)
    requires 0 <= k <= |p| && k <= |q| && p[..k] == q[..k]
    ensures p == q
    decreases |p| - k
  {
    hide Composition;
    if k < |p| && k < |q| {
      SameNext(ab, bc, p, q, k);
      assert p[..k + 1] == p[..k] + [p[k]] && q[..k + 1] == q[..k] + [q[k]];
      CompositionUnique(ab, bc, p, q, k + 1);
    } else if k == |p| {
      assert p[..k] == p;
      SameEnd(ab, bc, p, q);
    } else {
      assert q[..k] == q;
      SameEnd(ab, bc, q, p);
    }
  }

  /** A log, `ab` and `bc` determine the log after the merge. */
  lemma AppendedUnique(before: seq<Span>, ab: seq<Span>, bc: seq<Span>, p: seq<Span>, q: seq<Span>)
    requires Sound(ab) && Sound(bc) && AppendsComposition(before, p, ab, bc) && AppendsComposition(before, q, ab, bc)
    ensures p == q
  {
    hide Composition, PushAll;
    var x :| Composition(ab, bc, x) && p == PushAll(before, x, false);
    var y :| Composition(ab, bc, y) && q == PushAll(before, y, false);
    CompositionUnique(ab, bc, x, y, 0);
  }

  /** Whether the composition can be recorded is decided by the two logs. */
  lemma FitsOrOverflows(delta: int, ab: seq<Span>, bc: seq<Span>)
    requires Sound(ab) && Sound(bc)
    ensures !(CompositionFits(delta, ab, bc) && CompositionOverflows(delta, ab, bc))
  {
    hide Composition, DeltasFit;
    if CompositionFits(delta, ab, bc) && CompositionOverflows(delta, ab, bc) {
      var x :| Composition(ab, bc, x) && DeltasFit(delta, x);
      var y :| Composition(ab, bc, y) && !DeltasFit(delta, y);
      CompositionUnique(ab, bc, x, y, 0);
    }
  }

  /** Where there is room for the composition, it does not overflow, and no more is taken than there is room. */
  lemma RoomSuffices(delta: int, room: int, taken: int, ab: seq<Span>, bc: seq<Span>)
    requires Sound(ab) && Sound(bc) && CompositionHasRoom(delta, room, ab, bc)
    ensures !CompositionOverflows(delta, ab, bc)
    ensures CompositionFills(taken, ab, bc) ==> taken <= room
  {
    hide Composition, DeltasFit, Bulk;
    var x :| Composition(ab, bc, x) && DeltasFit(delta, x) && Bulk(x) <= room;
    FitsOrOverflows(delta, ab, bc);
    if CompositionFills(taken, ab, bc) {
      var y :| Composition(ab, bc, y) && taken <= Bulk(y);
      CompositionUnique(ab, bc, x, y, 0);
    }
  }

  lemma SameMiddle(delta: int, room: int, ab: seq<Span>, bc: seq<Span>)
    requires CompositionHasRoom(delta, room, ab, bc)
    ensures SumNew(ab) == SumOld(bc)
  {
    hide SumOld, SumNew, Image, Borders, AllTight, DeltasFit, Bulk;
  }

  /** Merging into an empty log gives the composition. */
  lemma MergedLog(ab: seq<Span>, bc: seq<Span>, ac: seq<Span>)
    requires AppendsComposition([], ac, ab, bc)
    ensures Composition(ab, bc, ac)
  {
    hide Composes;
    var x :| Composition(ab, bc, x) && ac == PushAll([], x, false);
    NormCanonical(x);
  }
}
