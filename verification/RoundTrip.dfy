/**
 Recording any sequence of edits and reading it back: the iterator delivers the recorded spans, without
 empty ones and with adjacent spans joined as the granularity says.
 */
module RoundTrip {
  import opened Basics
  import opened Spans
  import opened Units
  import opened Encoding
  import opened MergeSteps
  import opened EditLog
  import EditIterator

  /** Lengths as the log takes them, unchanged text with the same length on both sides. */
  ghost predicate Calls(calls: seq<Span>) {
    forall k :: 0 <= k < |calls| ==>
      && calls[k].oldLen <= INT32_MAX && calls[k].newLen <= INT32_MAX
      && (!calls[k].changed ==> calls[k].oldLen == calls[k].newLen)
  }

  /** Empty edits leave no trace. */
  function NonEmpty(calls: seq<Span>): seq<Span> {
    if calls == [] then []
    else
      var s := calls[|calls| - 1];
      NonEmpty(calls[..|calls| - 1]) + if s.oldLen == s.newLen == 0 then [] else [s]
  }

  function PushNonEmpty(ss: seq<Span>, s: Span): seq<Span> {
    if s.oldLen == s.newLen == 0 then ss else Push(ss, s, false)
  }

  lemma NonEmptyStep(calls: seq<Span>, k: int, before: seq<Span>)
    requires 0 <= k < |calls|
    ensures PushAll(before, NonEmpty(calls[..k + 1]), false)
            == PushNonEmpty(PushAll(before, NonEmpty(calls[..k]), false), calls[k])
  {
    hide Push;
    assert calls[..k + 1][..k] == calls[..k];
    var s, front := calls[k], NonEmpty(calls[..k]);
    if s.oldLen == s.newLen == 0 { assert front + [] == front; } else { PushAllSnoc(before, front, s); }
  }

  /** Makes one recording call. */
  method Record(log: Edits, s: Span)
    requires log.Valid() && s.oldLen <= INT32_MAX && s.newLen <= INT32_MAX && (!s.changed ==> s.oldLen == s.newLen)
    modifies log, log.units
    ensures log.Valid() && (log.units == old(log.units) || fresh(log.units))
    ensures old(log.errorCode) != ZeroError ==>
              log.errorCode == old(log.errorCode) && log.Content() == old(log.Content()) && log.units == old(log.units)
    ensures old(log.errorCode) == ZeroError ==>
              var delta := old(log.delta) + s.newLen - s.oldLen;
              if log.errorCode == ZeroError then
                && log.Fine() == PushNonEmpty(old(log.Fine()), s)
                && log.delta == delta
              else log.errorCode == IndexOutOfBounds && (log.Full() || !InInt32(delta))
    ensures FillOf(log.Content()) <= FillOf(old(log.Content())) + BulkOf(s)
  {
    hide Push, SpansOf, WellFormed, SumOld, SumNew, CountChanges, FillOf, Edits.Full;
    SumsPush(log.Fine(), s, false);
    if s.changed {
      log.AddReplace(s.oldLen, s.newLen);
      FillGrows(old(log.Content()), log.Content());
    } else {
      log.AddUnchanged(s.oldLen);
    }
  }

  /**
   After the calls, the log holds their edits, unless the difference of the lengths went out of range on the
   way, or the array was full.
   */
  ghost predicate Outcome(log: Edits, before: seq<Span>, delta: int, calls: seq<Span>)
    reads log, log.units
  {
    && log.Valid()
    && if log.errorCode == ZeroError then
         && log.Fine() == PushAll(before, NonEmpty(calls), false) && DeltasFit(delta, calls)
         && log.delta == delta + SumNew(calls) - SumOld(calls)
       else log.errorCode == IndexOutOfBounds && (log.Full() || !DeltasFit(delta, calls))
  }

  lemma NextCall(calls: seq<Span>, k: int, delta: int)
    requires 0 <= k < |calls|
    ensures var done, s := calls[..k], calls[k];
            && SumOld(calls[..k + 1]) == SumOld(done) + s.oldLen && SumNew(calls[..k + 1]) == SumNew(done) + s.newLen
            && Bulk(calls[..k + 1]) == Bulk(done) + BulkOf(s)
            && (DeltasFit(delta, calls[..k + 1]) <==>
                  DeltasFit(delta, done) && InInt32(delta + SumNew(done) + s.newLen - SumOld(done) - s.oldLen))
  {
    assert calls[..k + 1] == calls[..k] + [calls[k]];
    SumsSnoc(calls[..k], calls[k]);
    hide DeltasFit, InInt32, SumOld, SumNew, Bulk;
    BulkSnoc(calls[..k], calls[k]);
    DeltasFitSnoc(delta, calls[..k], calls[k]);
  }

  /** Makes any sequence of recording calls. */
  method RecordAll(log: Edits, calls: seq<Span>)
    requires log.Valid() && Calls(calls)
    modifies log, log.units
    ensures log.Valid() && FillOf(log.Content()) <= FillOf(old(log.Content())) + Bulk(calls)
    ensures if old(log.errorCode) == ZeroError then Outcome(log, old(log.Fine()), old(log.delta), calls)
            else log.errorCode == old(log.errorCode) && log.Content() == old(log.Content())
  {
    hide Push, PushAll, SpansOf, WellFormed, SumOld, SumNew, CountChanges, NonEmpty, DeltasFit, FillOf, Bulk;
    ghost var before, delta := log.Fine(), log.delta;
    NoCalls(before, calls, delta);
    var k := 0;
    while k < |calls|
      invariant 0 <= k <= |calls| && log.Valid() && (log.units == old(log.units) || fresh(log.units))
      invariant FillOf(log.Content()) <= FillOf(old(log.Content())) + Bulk(calls[..k])
      invariant if old(log.errorCode) == ZeroError then Outcome(log, before, delta, calls[..k])
                else log.errorCode == old(log.errorCode) && log.Content() == old(log.Content())
    {
      NonEmptyStep(calls, k, before);
      NextCall(calls, k, delta);
      Record(log, calls[k]);
      k := k + 1;
    }
    assert calls[..k] == calls;
  }

  lemma NoCalls(before: seq<Span>, calls: seq<Span>, delta: int)
    ensures PushAll(before, NonEmpty(calls[..0]), false) == before
    ensures SumOld(calls[..0]) == SumNew(calls[..0]) == Bulk(calls[..0]) == 0
    ensures InInt32(delta) ==> DeltasFit(delta, calls[..0])
  {
    assert calls[..0] == [];
  }

  /** The iterator is on span `n`, or has passed the last one. */
  ghost predicate OnSpan(it: EditIterator.Iterator, has: bool, n: int)
    reads it
  {
    && it.Valid() && it.dir == (if has then 1 else 0)
    && if has then it.Pos() == n < |it.All()| else n == |it.All()|
  }

  method FirstSpan(units: seq<Unit>, coarse: bool) returns (it: EditIterator.Iterator, has: bool)
    requires WellFormed(units)
    ensures fresh(it) && it.units == units && it.coarse == coarse && OnSpan(it, has, 0)
  {
    hide SpansOf, WellFormed;
    it := new EditIterator.Iterator(units, false, coarse);
    has := it.Next(false);
  }

  method NextSpan(it: EditIterator.Iterator, ghost n: int) returns (has: bool)
    requires OnSpan(it, true, n)
    modifies it
    ensures OnSpan(it, has, n + 1)
  {
    hide SpansOf, WellFormed;
    has := it.Next(false);
  }

  lemma CurrentSpan(it: EditIterator.Iterator, n: int)
    requires OnSpan(it, true, n)
    ensures WellFormed(it.units) && 0 <= n < |it.All()| && it.Current() == it.All()[n]
  {
  }

  lemma PastLast(it: EditIterator.Iterator, has: bool, n: int)
    requires OnSpan(it, has, n)
    ensures WellFormed(it.units) && (!has ==> n == |it.All()|)
  {
  }

  /** Reads all spans, first to last. */
  method ReadAll(units: seq<Unit>, coarse: bool) returns (spans: seq<Span>)
    requires WellFormed(units)
    ensures spans == SpansOf(units, coarse)
  {
    hide SpansOf, WellFormed, OnSpan;
    var it, has := FirstSpan(units, coarse);
    spans := [];
    while has
      invariant fresh(it) && OnSpan(it, has, |spans|)
      invariant |spans| <= |it.All()| && spans == it.All()[..|spans|]
      decreases has, |it.All()| - |spans|
    {
      CurrentSpan(it, |spans|);
      spans := spans + [Span(it.changed, it.oldLength, it.newLength)];
      has := NextSpan(it, |spans| - 1);
    }
    PastLast(it, has, |spans|);
  }

  /**
   Recording a sequence of edits in an empty log and reading it back at either granularity gives the edits
   again, without empty ones and with adjacent ones joined. It succeeds unless the difference of the lengths
   goes out of range or about as many units are needed as an array can have.
   */
  method RecordAndRead(calls: seq<Span>, coarse: bool) returns (ok: bool, spans: seq<Span>, delta: int, numChanges: int)
    requires Calls(calls)
    ensures ok ==> DeltasFit(0, calls)
    ensures DeltasFit(0, calls) && Bulk(calls) <= FILL_LIMIT ==> ok
    ensures ok ==> spans == Norm(NonEmpty(calls), coarse)
    ensures ok ==> delta == SumNew(calls) - SumOld(calls) && numChanges == CountChanges(NonEmpty(calls))
  {
    hide Push, SpansOf, WellFormed, SumOld, SumNew, CountChanges, NonEmpty, FillOf, Bulk, DeltasFit;
    var log := new Edits();
    FillBounds(log.Content());
    RecordAll(log, calls);
    FillBounds(log.Content());
    ok, delta, numChanges := log.errorCode == ZeroError, log.delta, log.numChanges;
    spans := ReadAll(log.units[..log.length], coarse);
    if ok {
      Granularity(log.Content(), coarse);
      CoarseOfFine(NonEmpty(calls));
      NonEmptySums(calls);
      SumsPushAll([], NonEmpty(calls), false);
      SumsEmpty();
      NormTwice(NonEmpty(calls));
    }
  }

  lemma Granularity(units: seq<Unit>, coarse: bool)
    requires WellFormed(units)
    ensures SpansOf(units, coarse) == Norm(SpansOf(units, false), coarse)
  {
    CoarseOfFine(Raw(units));
    NormTwice(Raw(units));
  }

  lemma NormTwice(raw: seq<Span>)
    ensures Norm(Norm(raw, false), false) == Norm(raw, false)
  {
    PushAllCanonical([], raw, false);
    NormCanonical(Norm(raw, false));
  }

  lemma {:induction false} NonEmptySums(calls: seq<Span>)
    ensures SumOld(NonEmpty(calls)) == SumOld(calls) && SumNew(NonEmpty(calls)) == SumNew(calls)
  {
    if calls != [] {
      var n := |calls| - 1;
      NonEmptySums(calls[..n]);
      var s := calls[n];
      var front := NonEmpty(calls[..n]);
      if s.oldLen == s.newLen == 0 { assert front + [] == front; } else { assert (front + [s])[..|front|] == front; }
    }
  }
}
