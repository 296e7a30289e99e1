/**
 Why a merge records changes that are as small as possible: a change stays pending only while one of the two
 logs is in the middle of a change.
 */
module MergeSteady {
  import opened Spans
  import opened Compose
  import opened Cuts
  import opened MergeSteps

  /** The current edit of ab is a change that has been used up in part. */
  ghost predicate MidA(v: MergeVars, cur: Span) { 0 < v.abLength < cur.newLen && cur.changed }

  ghost predicate MidC(v: MergeVars, cur: Span) { 0 < v.bcLength < cur.oldLen && cur.changed }

  ghost predicate Steady(v: MergeVars, m: Merging, curA: Span, curC: Span) {
    && m.y0 <= PlaceB(m) && NoCutBetween(m.ab, m.bc, m.y0, PlaceB(m))
    && if PlaceB(m) == m.y0 then m.pa == m.pc == 0 && !MidA(v, curA) && !MidC(v, curC)
       else (MidA(v, curA) || MidC(v, curC)) && LastHere(m.ab, m.bc, SumOld(m.out), m.y0, SumNew(m.out))
  }

  // ----- places

  lemma PlaceA(ss: seq<Span>, k: int, cur: Span, aLength: nat, abLength: nat, rest: seq<Span>)
    requires Sound(ss) && SideA(ss, k, cur, aLength, abLength, rest)
    ensures SumNew(ss) - SumNew(rest) == SumNew(ss[..k]) - abLength
    ensures SumOld(ss) - SumOld(rest) == SumOld(ss[..k]) - if abLength > 0 then aLength else 0
  {
    assert ss == ss[..k] + ss[k..];
    SumsAppend(ss[..k], ss[k..]);
    if abLength > 0 { SumsCons(Span(cur.changed, aLength, abLength), ss[k..]); } else { assert rest == ss[k..]; }
  }

  lemma PlaceC(ss: seq<Span>, k: int, cur: Span, bcLength: nat, cLength: nat, rest: seq<Span>)
    requires Sound(ss) && SideC(ss, k, cur, bcLength, cLength, rest)
    ensures SumOld(ss) - SumOld(rest) == SumOld(ss[..k]) - bcLength
    ensures SumNew(ss) - SumNew(rest) == SumNew(ss[..k]) - if bcLength > 0 then cLength else 0
  {
    assert ss == ss[..k] + ss[k..];
    SumsAppend(ss[..k], ss[k..]);
    if bcLength > 0 { SumsCons(Span(cur.changed, bcLength, cLength), ss[k..]); } else { assert rest == ss[k..]; }
  }

  /** Where ab is not in the middle of a change, it can be cut. */
  lemma CutA(ss: seq<Span>, k: int, cur: Span, aLength: nat, abLength: nat, rest: seq<Span>) returns (i: int, e: int)
    requires Sound(ss) && SideA(ss, k, cur, aLength, abLength, rest) && !(0 < abLength < cur.newLen && cur.changed)
    ensures CutAt(ss, i, e, SumOld(ss) - SumOld(rest), SumNew(ss) - SumNew(rest))
    ensures if abLength == 0 then i == k && e == 0
            else i == k - 1 && i < |ss| && e == cur.newLen - abLength < ss[i].newLen
  {
    PlaceA(ss, k, cur, aLength, abLength, rest);
    if abLength == 0 {
      i, e := k, 0;
    } else {
      i, e := k - 1, cur.newLen - abLength;
      SumsStep(ss, i);
    }
  }

  lemma CutC(ss: seq<Span>, k: int, cur: Span, bcLength: nat, cLength: nat, rest: seq<Span>) returns (i: int, e: int)
    requires Sound(ss) && SideC(ss, k, cur, bcLength, cLength, rest) && !(0 < bcLength < cur.oldLen && cur.changed)
    ensures CutAt(ss, i, e, SumOld(ss) - SumOld(rest), SumNew(ss) - SumNew(rest))
    ensures if bcLength == 0 then i == k && e == 0
            else i == k - 1 && i < |ss| && e == cur.oldLen - bcLength < ss[i].oldLen
  {
    PlaceC(ss, k, cur, bcLength, cLength, rest);
    if bcLength == 0 {
      i, e := k, 0;
    } else {
      i, e := k - 1, cur.oldLen - bcLength;
      SumsStep(ss, i);
    }
  }

  // ----- stretches without a common cut

  /** Between the place reached and the next end of a current edit, the one that is a change cannot be cut. */
  lemma ChangeUncutA(ss: seq<Span>, k: int, cur: Span, aLength: nat, abLength: nat, rest: seq<Span>, x: int, y: int)
    requires Sound(ss) && SideA(ss, k, cur, aLength, abLength, rest) && 0 < abLength && cur.changed
    requires SumNew(ss) - SumNew(rest) <= y < SumNew(ss) - SumNew(rest) + abLength
    requires SumNew(ss) - SumNew(rest) < y || abLength < cur.newLen
    ensures !Cut(ss, x, y)
  {
    PlaceA(ss, k, cur, aLength, abLength, rest);
    SumsStep(ss, k - 1);
    if Cut(ss, x, y) { InsideChange(ss, k - 1, x, y); }
  }

  lemma ChangeUncutC(ss: seq<Span>, k: int, cur: Span, bcLength: nat, cLength: nat, rest: seq<Span>, y: int, z: int)
    requires Sound(ss) && SideC(ss, k, cur, bcLength, cLength, rest) && 0 < bcLength && cur.changed
    requires SumOld(ss) - SumOld(rest) <= y < SumOld(ss) - SumOld(rest) + bcLength
    requires SumOld(ss) - SumOld(rest) < y || bcLength < cur.oldLen
    ensures !Cut(ss, y, z)
  {
    PlaceC(ss, k, cur, bcLength, cLength, rest);
    SumsStep(ss, k - 1);
    if Cut(ss, y, z) { InsideChange(ss, k - 1, y, z); }
  }

  lemma NoCutHere(v: MergeVars, m: Merging, ka: int, curA: Span, kc: int, curC: Span, n: nat, x: int, y: int, z: int)
    requires Totals(m) && Linked(v, m, ka, curA, kc, curC) && v.abLength > 0 && v.bcLength > 0
    requires n <= v.abLength && n <= v.bcLength && PlaceB(m) <= y < PlaceB(m) + n
    requires if PlaceB(m) < y then curA.changed || curC.changed else MidA(v, curA) || MidC(v, curC)
    ensures !(Cut(m.ab, x, y) && Cut(m.bc, y, z))
  {
    hide Cut, SumOld, SumNew, Sound, SideA, SideC;
    if curA.changed && (PlaceB(m) < y || MidA(v, curA)) {
      ChangeUncutA(m.ab, ka, curA, v.aLength, v.abLength, m.restA, x, y);
    } else {
      ChangeUncutC(m.bc, kc, curC, v.bcLength, v.cLength, m.restC, y, z);
    }
  }

  lemma NoCutUpTo(v: MergeVars, m: Merging, ka: int, curA: Span, kc: int, curC: Span, n: nat)
    requires Totals(m) && Linked(v, m, ka, curA, kc, curC) && Steady(v, m, curA, curC) && v.abLength > 0
    requires v.bcLength > 0
    requires n <= v.abLength && n <= v.bcLength && (curA.changed || curC.changed)
    ensures NoCutBetween(m.ab, m.bc, m.y0, PlaceB(m) + n)
  {
    hide Cut, Totals, Linked, LastHere, PlaceB;
    forall x, y, z | m.y0 < y < PlaceB(m) + n && Cut(m.ab, x, y) ensures !Cut(m.bc, y, z) {
      if PlaceB(m) <= y { NoCutHere(v, m, ka, curA, kc, curC, n, x, y, z); }
    }
  }

  // ----- the ends of a pending change

  /** Before text of string b that is still to come, the place reached is the last cut there. */
  lemma LastHereNow(v: MergeVars, m: Merging, ka: int, curA: Span, kc: int, curC: Span)
    requires Totals(m) && Linked(v, m, ka, curA, kc, curC) && m.pa == m.pc == 0
    requires v.abLength > 0 && v.bcLength > 0 && !MidA(v, curA) && !MidC(v, curC)
    ensures LastHere(m.ab, m.bc, SumOld(m.out), PlaceB(m), SumNew(m.out))
  {
    var x, y, z := SumOld(m.out), PlaceB(m), SumNew(m.out);
    hide SumOld, SumNew, Sound, SideA, SideC, CutAt;
    var i, d := CutA(m.ab, ka, curA, v.aLength, v.abLength, m.restA);
    var j, e := CutC(m.bc, kc, curC, v.bcLength, v.cLength, m.restC);
    assert Cut(m.ab, x, y) && Cut(m.bc, y, z);
    hide Cut;
    forall x' | Cut(m.ab, x', y) ensures x' <= x { LastCut(m.ab, i, d, x, y, x'); }
    forall z' | Cut(m.bc, y, z') ensures z' <= z { LastCutOld(m.bc, j, e, y, z, z'); }
  }

  /** After text of string b, the place reached is the first cut there. */
  lemma FirstHereNow(v: MergeVars, m: Merging, ka: int, curA: Span, kc: int, curC: Span)
    requires Totals(m) && Linked(v, m, ka, curA, kc, curC) && !MidA(v, curA) && !MidC(v, curC)
    requires 0 < ka <= |m.ab| && curA == m.ab[ka - 1] && v.abLength < curA.newLen
    requires 0 < kc <= |m.bc| && curC == m.bc[kc - 1] && v.bcLength < curC.oldLen
    ensures FirstHere(m.ab, m.bc, SumOld(m.out) + m.pa, PlaceB(m), SumNew(m.out) + m.pc)
  {
    var x, y, z := SumOld(m.out) + m.pa, PlaceB(m), SumNew(m.out) + m.pc;
    hide SumOld, SumNew, Sound, SideA, SideC, CutAt;
    var i, d := CutA(m.ab, ka, curA, v.aLength, v.abLength, m.restA);
    var j, e := CutC(m.bc, kc, curC, v.bcLength, v.cLength, m.restC);
    assert Cut(m.ab, x, y) && Cut(m.bc, y, z);
    hide Cut;
    forall x' | Cut(m.ab, x', y) ensures x <= x' { FirstCut(m.ab, i, d, x, y, x'); }
    forall z' | Cut(m.bc, y, z') ensures z <= z' { FirstCutOld(m.bc, j, e, y, z, z'); }
  }

  // ----- the steps of the merge

  lemma SteadyStart(ab: seq<Span>, bc: seq<Span>, curA: Span, curC: Span)
    ensures Steady(MergeVars(0, 0, 0, 0, 0, 0), Merging(ab, bc, [], 0, 0, ab, bc, 0), curA, curC)
  {
  }

  /** After recording, nothing is pending. */
  lemma SteadyRecorded(v: MergeVars, m: Merging, curA: Span, curC: Span)
    requires m.y0 == PlaceB(m) && m.pa == m.pc == 0 && !MidA(v, curA) && !MidC(v, curC)
    ensures Steady(v, m, curA, curC)
  {
  }

  /** The start of the pending change is the last cut at its place. */
  lemma PendingStart(v: MergeVars, m: Merging, ka: int, curA: Span, kc: int, curC: Span)
    requires Totals(m) && Linked(v, m, ka, curA, kc, curC) && Steady(v, m, curA, curC) && v.abLength > 0
    requires v.bcLength > 0
    ensures LastHere(m.ab, m.bc, SumOld(m.out), m.y0, SumNew(m.out))
  {
    hide LastHere, NoCutBetween;
    if PlaceB(m) == m.y0 { LastHereNow(v, m, ka, curA, kc, curC); }
  }

  /** Both logs have used up `n` more units of string b, not all of them unchanged. */
  ghost predicate Consumed(v: MergeVars, m: Merging, v': MergeVars, m': Merging, n: nat) {
    && 0 < n <= v.abLength && n <= v.bcLength
    && v'.abLength == v.abLength - n && v'.bcLength == v.bcLength - n
    && m'.ab == m.ab && m'.bc == m.bc && m'.out == m.out && m'.y0 == m.y0 && PlaceB(m') == PlaceB(m) + n
  }

  /** Where both logs can be cut again, the pending change is as small as possible. */
  lemma ConsumedReady(v: MergeVars, m: Merging, v': MergeVars, m': Merging, ka: int, curA: Span, kc: int, curC: Span,
                      n: nat)
    requires Totals(m) && Linked(v, m, ka, curA, kc, curC) && Steady(v, m, curA, curC) && (curA.changed || curC.changed)
    requires Totals(m') && Linked(v'.(pa := m'.pa, pc := m'.pc), m', ka, curA, kc, curC) && Consumed(v, m, v', m', n)
    requires !MidA(v', curA) && !MidC(v', curC)
    ensures Ready(m')
  {
    hide SumOld, SumNew, Sound, Totals, NoCutBetween, LastHere, FirstHere, SideA, SideC, Tight, PlaceB;
    NoCutUpTo(v, m, ka, curA, kc, curC, n);
    PendingStart(v, m, ka, curA, kc, curC);
    CurrentSpans(v, m, ka, curA, kc, curC);
    FirstHereNow(v'.(pa := m'.pa, pc := m'.pc), m', ka, curA, kc, curC);
    StretchTight(m.ab, m.bc, SumOld(m.out), m.y0, SumNew(m.out), SumOld(m'.out) + m'.pa, PlaceB(m'),
                 SumNew(m'.out) + m'.pc);
  }

  lemma CurrentSpans(v: MergeVars, m: Merging, ka: int, curA: Span, kc: int, curC: Span)
    requires Linked(v, m, ka, curA, kc, curC) && v.abLength > 0 && v.bcLength > 0
    ensures 0 < ka <= |m.ab| && curA == m.ab[ka - 1] && v.abLength <= curA.newLen
    ensures 0 < kc <= |m.bc| && curC == m.bc[kc - 1] && v.bcLength <= curC.oldLen
  {
  }

  /** In the middle of a change, the change stays pending. */
  lemma ConsumedSteady(v: MergeVars, m: Merging, v': MergeVars, m': Merging, ka: int, curA: Span, kc: int, curC: Span,
                       n: nat)
    requires Totals(m) && Linked(v, m, ka, curA, kc, curC) && Steady(v, m, curA, curC) && (curA.changed || curC.changed)
    requires Consumed(v, m, v', m', n) && (MidA(v', curA) || MidC(v', curC))
    ensures Steady(v', m', curA, curC)
  {
    NoCutUpTo(v, m, ka, curA, kc, curC, n);
    PendingStart(v, m, ka, curA, kc, curC);
    hide NoCutBetween, LastHere, Totals, Linked;
  }

  /** Nothing is pending where neither log is in the middle of a change. */
  lemma NothingPending(v: MergeVars, m: Merging, curA: Span, curC: Span)
    requires Steady(v, m, curA, curC) && !MidA(v, curA) && !MidC(v, curC)
    ensures Ready(m) && m.y0 == PlaceB(m)
  {
  }

  /** So the flushes before unchanged text and at the end have nothing to record. */
  lemma FlushRecordsNothing(v: MergeVars, m: Merging, curA: Span, curC: Span)
    requires Steady(v, m, curA, curC)
    requires (v.abLength == 0 || !curA.changed) && (v.bcLength == 0 || !curC.changed)
    ensures m.pa == 0 && m.pc == 0
  {
  }

  /** A used-up edit does not matter. */
  lemma SteadyUsedUp(v: MergeVars, m: Merging, curA: Span, curC: Span, cur: Span)
    requires Steady(v, m, curA, curC)
    ensures v.abLength == 0 ==> Steady(v, m, cur, curC)
    ensures v.bcLength == 0 ==> Steady(v, m, curA, cur)
  {
  }

  /** Fetching an edit with text of string b changes nothing. */
  lemma SteadyFetched(v: MergeVars, m: Merging, curA: Span, curC: Span, cur: Span)
    requires Steady(v, m, curA, curC)
    ensures v.bcLength == 0 ==> Steady(v.(bcLength := cur.oldLen, cLength := cur.newLen), m, curA, cur)
    ensures v.abLength == 0 ==> Steady(v.(aLength := cur.oldLen, abLength := cur.newLen), m, cur, curC)
  {
  }

  /** At the start of a round, a change of ab that is not used up has been used up in part. */
  ghost predicate AtTop(v: MergeVars, curA: Span) { v.abLength > 0 && curA.changed ==> MidA(v, curA) }

  lemma InsertReady(v: MergeVars, m: Merging, ka: int, curA: Span, kc: int, curC: Span, m': Merging)
    requires Totals(m) && Linked(v, m, ka, curA, kc, curC) && Steady(v, m, curA, curC)
    requires v.bcLength == 0 && kc < |m.bc| && m.bc[kc].oldLen == 0 && (v.abLength == 0 || !curA.changed)
    requires m' == m.(pc := m.pc + m.bc[kc].newLen, restC := m.bc[kc + 1..])
    ensures Ready(m')
  {
    PlaceC(m.bc, kc, curC, v.bcLength, v.cLength, m.restC);
    InsertionTight(m.ab, m.bc, kc, SumOld(m.out));
    hide Tight, NoCutBetween, LastHere, SumOld, SumNew;
  }

  lemma InsertSteady(v: MergeVars, m: Merging, curA: Span, curC: Span, cur: Span, v': MergeVars, m': Merging)
    requires Steady(v, m, curA, curC) && MidA(v, curA) && v'.abLength == v.abLength && v'.bcLength == 0
    requires m'.ab == m.ab && m'.bc == m.bc && m'.out == m.out && m'.restA == m.restA && m'.y0 == m.y0
    ensures Steady(v', m', curA, cur)
  {
    hide NoCutBetween, LastHere, SumOld, SumNew;
  }

  /** No insertion follows at this place. */
  lemma NoInsertionHere(v: MergeVars, m: Merging, ka: int, curA: Span, kc: int, curC: Span, z: int)
    requires Totals(m) && Linked(v, m, ka, curA, kc, curC) && m.pa == m.pc == 0 && !MidC(v, curC)
    requires v.bcLength == 0 ==> kc == |m.bc|
    requires Cut(m.bc, PlaceB(m), z)
    ensures z <= SumNew(m.out)
  {
    hide SumOld, SumNew, Sound, SideA, SideC, CutAt, Cut;
    var i, e := CutC(m.bc, kc, curC, v.bcLength, v.cLength, m.restC);
    if v.bcLength > 0 {
      LastCutOld(m.bc, i, e, PlaceB(m), SumNew(m.out), z);
    } else {
      PlaceC(m.bc, kc, curC, v.bcLength, v.cLength, m.restC);
      assert m.bc[..kc] == m.bc;
      CutWithin(m.bc, PlaceB(m), z);
    }
  }

  lemma DeletedSpan(v: MergeVars, m: Merging, ka: int, curA: Span, kc: int, curC: Span)
    requires Linked(v, m, ka, curA, kc, curC) && ka < |m.ab| && m.ab[ka].newLen == 0
    ensures 0 <= ka && m.ab[ka].changed
  {
  }

  lemma DeletedPlace(v: MergeVars, m: Merging, ka: int, curA: Span, kc: int, curC: Span)
    requires Totals(m) && Linked(v, m, ka, curA, kc, curC) && Steady(v, m, curA, curC) && v.abLength == 0
    requires !MidC(v, curC)
    requires (v.bcLength == 0 ==> kc == |m.bc|) && 0 <= ka <= |m.ab|
    ensures m.pa == m.pc == 0 && SumNew(m.ab[..ka]) == PlaceB(m) && SumOld(m.ab[..ka]) == SumOld(m.out)
    ensures forall z :: Cut(m.bc, PlaceB(m), z) ==> z <= SumNew(m.out)
  {
    hide NoCutBetween, LastHere, SumOld, SumNew, Cut, SideA, SideC, Sound;
    PlaceA(m.ab, ka, curA, v.aLength, v.abLength, m.restA);
    forall z | Cut(m.bc, PlaceB(m), z) ensures z <= SumNew(m.out) { NoInsertionHere(v, m, ka, curA, kc, curC, z); }
  }

  lemma DeleteReady(v: MergeVars, m: Merging, ka: int, curA: Span, kc: int, curC: Span, m': Merging)
    requires Totals(m) && Linked(v, m, ka, curA, kc, curC) && Steady(v, m, curA, curC)
    requires v.abLength == 0 && ka < |m.ab| && m.ab[ka].newLen == 0 && !MidC(v, curC)
    requires v.bcLength == 0 ==> kc == |m.bc|
    requires m' == m.(pa := m.pa + m.ab[ka].oldLen, restA := m.ab[ka + 1..])
    ensures Ready(m')
  {
    hide Tight, NoCutBetween, LastHere, SumOld, SumNew, Cut, SideA, SideC, Sound;
    DeletedSpan(v, m, ka, curA, kc, curC);
    DeletedPlace(v, m, ka, curA, kc, curC);
    hide Steady, Linked, Totals;
    DeletionTight(m.ab, m.bc, ka, SumNew(m.out));
  }

  lemma DeleteSteady(v: MergeVars, m: Merging, ka: int, curA: Span, kc: int, curC: Span, v': MergeVars, m': Merging)
    requires Linked(v, m, ka, curA, kc, curC) && Steady(v, m, curA, curC) && MidC(v, curC)
    requires v.abLength == v'.abLength == 0 && v'.bcLength == v.bcLength && ka < |m.ab| && m.ab[ka].newLen == 0
    requires m'.ab == m.ab && m'.bc == m.bc && m'.out == m.out && m'.restA == m.ab[ka + 1..] && m'.y0 == m.y0
    ensures Steady(v', m', m.ab[ka], curC)
  {
    assert m.restA == [] + m.ab[ka..] == [m.ab[ka]] + m.ab[ka + 1..];
    SumsCons(m.ab[ka], m.ab[ka + 1..]);
    hide NoCutBetween, LastHere, SumOld, SumNew;
  }

  lemma PartUsed(v: MergeVars, m: Merging, ka: int, curA: Span, kc: int, curC: Span)
    requires Linked(v, m, ka, curA, kc, curC) && curC.changed && v.bcLength > 0 && v.bcLength != curC.oldLen
    ensures MidC(v, curC)
  {
  }
}
