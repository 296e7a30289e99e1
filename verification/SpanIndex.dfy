/**
 Index mapping between the source and the destination string of a span list.
 */
module SpanIndex {
  import opened Spans

  function Len(s: Span, source: bool): nat {
    if source then s.oldLen else s.newLen
  }

  function Total(ss: seq<Span>, source: bool): nat {
    if source then SumOld(ss) else SumNew(ss)
  }

  /** Where span `k` starts in the source or the destination string. */
  function Start(ss: seq<Span>, k: int, source: bool): nat
    requires 0 <= k <= |ss|
  {
    Total(ss[..k], source)
  }

  /** Span `k` covers string index `i`. */
  predicate Covers(ss: seq<Span>, k: int, source: bool, i: int) {
    0 <= k < |ss| && Start(ss, k, source) <= i < Start(ss, k, source) + Len(ss[k], source)
  }

  /**
   The other side's index for index `i` of one side: exact at span starts and in unchanged text, else the end of
   the change.
   */
  function MapIndex(ss: seq<Span>, i: int, source: bool): nat {
    if i < 0 || ss == [] then 0
    else if i < Len(ss[0], source) then
      if i == 0 then 0 else if ss[0].changed then Len(ss[0], !source) else i
    else Len(ss[0], !source) + MapIndex(ss[1..], i - Len(ss[0], source), source)
  }

  lemma StartStep(ss: seq<Span>, k: int, source: bool)
    requires 0 <= k < |ss|
    ensures Start(ss, k + 1, source) == Start(ss, k, source) + Len(ss[k], source)
  {
    SumsStep(ss, k);
  }

  lemma StartMonotone(ss: seq<Span>, j: int, k: int, source: bool)
    requires 0 <= j <= k <= |ss|
    ensures Start(ss, j, source) <= Start(ss, k, source)
  {
    SumsMonotone(ss, j, k);
  }

  lemma StartEnds(ss: seq<Span>, source: bool)
    ensures Start(ss, 0, source) == 0 && Start(ss, |ss|, source) == Total(ss, source)
  {
    assert ss[..|ss|] == ss;
  }

  /** At most one span covers an index, so where a search ends does not depend on where it began. */
  lemma CoversUnique(ss: seq<Span>, j: int, k: int, source: bool, i: int)
    requires Covers(ss, j, source, i) && Covers(ss, k, source, i)
    ensures j == k
  {
    if j < k {
      StartStep(ss, j, source);
      StartMonotone(ss, j + 1, k, source);
    } else if k < j {
      StartStep(ss, k, source);
      StartMonotone(ss, k + 1, j, source);
    }
  }

  lemma CoveredInside(ss: seq<Span>, k: int, source: bool, i: int)
    requires Covers(ss, k, source, i)
    ensures 0 <= i < Total(ss, source)
  {
    StartStep(ss, k, source);
    StartMonotone(ss, k + 1, |ss|, source);
    StartEnds(ss, source);
  }

  /** Starts within a run of equal spans. */
  lemma {:induction false} RunStarts(ss: seq<Span>, a: int, b: int, k: int, x: Span)
    requires 0 <= a <= k <= b <= |ss|
    requires forall j :: a <= j < b ==> ss[j] == x
    ensures SumOld(ss[..k]) == SumOld(ss[..a]) + (k - a) * x.oldLen
    ensures SumNew(ss[..k]) == SumNew(ss[..a]) + (k - a) * x.newLen
    ensures x.changed ==> SumRepl(ss[..k]) == SumRepl(ss[..a]) + (k - a) * x.newLen
    decreases k
  {
    hide SumOld, SumNew, SumRepl;
    if a < k {
      RunStarts(ss, a, b, k - 1, x);
      SumsStep(ss, k - 1);
      assert (k - a) * x.oldLen == (k - 1 - a) * x.oldLen + x.oldLen;
      assert (k - a) * x.newLen == (k - 1 - a) * x.newLen + x.newLen;
    }
  }

  lemma RunMove(ss: seq<Span>, a: int, b: int, k: int, n: int, x: Span)
    requires 0 <= a <= k <= b <= |ss| && a <= k + n <= b && x.changed
    requires forall j :: a <= j < b ==> ss[j] == x
    ensures SumOld(ss[..k + n]) == SumOld(ss[..k]) + n * x.oldLen
    ensures SumNew(ss[..k + n]) == SumNew(ss[..k]) + n * x.newLen
    ensures SumRepl(ss[..k + n]) == SumRepl(ss[..k]) + n * x.newLen
  {
    hide SumOld, SumNew, SumRepl;
    RunStarts(ss, a, b, k, x);
    RunStarts(ss, a, b, k + n, x);
    assert (k + n - a) * x.oldLen == (k - a) * x.oldLen + n * x.oldLen;
    assert (k + n - a) * x.newLen == (k - a) * x.newLen + n * x.newLen;
  }

  // ----- the mapping, seen from the span that covers an index

  lemma DropFirst(ss: seq<Span>, k: int, source: bool)
    requires 0 < k <= |ss|
    ensures Start(ss, k, source) == Len(ss[0], source) + Start(ss[1..], k - 1, source)
  {
    assert ss[..k] == [ss[0]] + ss[1..][..k - 1];
    SumsAppend([ss[0]], ss[1..][..k - 1]);
    assert [ss[0]][..0] == [];
  }

  lemma {:induction false} MapCovered(ss: seq<Span>, k: int, i: int, source: bool)
    requires Covers(ss, k, source, i)
    ensures MapIndex(ss, i, source) == Start(ss, k, !source) +
      (if i == Start(ss, k, source) then 0
       else if ss[k].changed then Len(ss[k], !source)
       else i - Start(ss, k, source))
  {
    StartEnds(ss, source);
    StartEnds(ss, !source);
    if k > 0 {
      DropFirst(ss, k, source);
      DropFirst(ss, k, !source);
      DropFirst(ss, 1, source);
      StartMonotone(ss, 1, k, source);
      StartEnds(ss[1..], source);
      MapCovered(ss[1..], k - 1, i - Len(ss[0], source), source);
    }
  }

  lemma {:induction false} MapBeyond(ss: seq<Span>, i: int, source: bool)
    requires i >= Total(ss, source)
    ensures MapIndex(ss, i, source) == Total(ss, !source)
  {
    if ss != [] {
      StartEnds(ss, source);
      StartEnds(ss, !source);
      DropFirst(ss, |ss|, source);
      DropFirst(ss, |ss|, !source);
      StartEnds(ss[1..], source);
      StartEnds(ss[1..], !source);
      MapBeyond(ss[1..], i - Len(ss[0], source), source);
    }
  }

  lemma {:induction false} MapBounded(ss: seq<Span>, i: int, source: bool)
    requires Sound(ss)
    ensures MapIndex(ss, i, source) <= Total(ss, !source)
  {
    if ss != [] {
      DropFirst(ss, |ss|, !source);
      StartEnds(ss, !source);
      StartEnds(ss[1..], !source);
      MapBounded(ss[1..], i - Len(ss[0], source), source);
    }
  }

  /** Both mappings are monotone. */
  lemma {:induction false} MapMonotone(ss: seq<Span>, i: int, j: int, source: bool)
    requires i <= j && Sound(ss)
    ensures MapIndex(ss, i, source) <= MapIndex(ss, j, source)
  {
    if ss != [] && 0 <= i {
      MapMonotone(ss[1..], i - Len(ss[0], source), j - Len(ss[0], source), source);
    }
  }

  /** Mapping there and back never goes below the start: the end of a change maps back to at least its end. */
  lemma {:induction false} MapThereAndBack(ss: seq<Span>, i: int, source: bool)
    requires Sound(ss) && 0 <= i <= Total(ss, source)
    ensures MapIndex(ss, MapIndex(ss, i, source), !source) >= i
  {
    if ss != [] {
      StartEnds(ss, source);
      StartEnds(ss[1..], source);
      DropFirst(ss, |ss|, source);
      if i >= Len(ss[0], source) {
        MapThereAndBack(ss[1..], i - Len(ss[0], source), source);
      }
    }
  }
}
