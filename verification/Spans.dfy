/**
 Edit spans: the abstract content of an edit log, and its two granularities.

 A log denotes a sequence of spans, each mapping `oldLen` text units of a source string to
 `newLen` text units of a destination string.  `Norm` joins adjacent spans: unchanged spans
 always, change spans only at coarse granularity.
 */
module Spans {

  datatype Span = Span(changed: bool, oldLen: nat, newLen: nat)

  function SumOld(ss: seq<Span>): nat {
    if ss == [] then 0 else SumOld(ss[..|ss| - 1]) + ss[|ss| - 1].oldLen
  }

  function SumNew(ss: seq<Span>): nat {
    if ss == [] then 0 else SumNew(ss[..|ss| - 1]) + ss[|ss| - 1].newLen
  }

  /** Total length of the replacement text, that is, of the new text of the change spans. */
  function SumRepl(ss: seq<Span>): nat {
    if ss == [] then 0
    else SumRepl(ss[..|ss| - 1]) + if ss[|ss| - 1].changed then ss[|ss| - 1].newLen else 0
  }

  function CountChanges(ss: seq<Span>): nat {
    if ss == [] then 0
    else CountChanges(ss[..|ss| - 1]) + if ss[|ss| - 1].changed then 1 else 0
  }

  /** How much a span takes in a log at most, in units that hold 0x1000 text units of unchanged text each. */
  function BulkOf(s: Span): nat { if s.changed then 6 * 0x1000 else s.oldLen }

  function Bulk(ss: seq<Span>): nat {
    if ss == [] then 0 else Bulk(ss[..|ss| - 1]) + BulkOf(ss[|ss| - 1])
  }

  /** Unchanged text has the same, positive length on both sides. */
  predicate Sound(ss: seq<Span>) {
    forall k :: 0 <= k < |ss| && !ss[k].changed ==> ss[k].oldLen == ss[k].newLen > 0
  }

  predicate Mergeable(a: Span, b: Span, coarse: bool) {
    a.changed == b.changed && (a.changed ==> coarse)
  }

  function Join(a: Span, b: Span): Span {
    Span(a.changed, a.oldLen + b.oldLen, a.newLen + b.newLen)
  }

  /** Appends one span, joining it with the last one where the granularity says so. */
  function Push(ss: seq<Span>, s: Span, coarse: bool): seq<Span> {
    if ss != [] && Mergeable(ss[|ss| - 1], s, coarse)
    then ss[..|ss| - 1] + [Join(ss[|ss| - 1], s)]
    else ss + [s]
  }

  function PushAll(ss: seq<Span>, more: seq<Span>, coarse: bool): seq<Span> {
    if more == [] then ss
    else Push(PushAll(ss, more[..|more| - 1], coarse), more[|more| - 1], coarse)
  }

  function Norm(raw: seq<Span>, coarse: bool): seq<Span> {
    PushAll([], raw, coarse)
  }

  /** The two sides do not join where they meet. */
  predicate Seam(a: seq<Span>, b: seq<Span>, coarse: bool) {
    a != [] && b != [] ==> !Mergeable(a[|a| - 1], b[0], coarse)
  }

  // ----- sums

  lemma {:induction false} SumsAppend(a: seq<Span>, b: seq<Span>)
    ensures SumOld(a + b) == SumOld(a) + SumOld(b)
    ensures SumNew(a + b) == SumNew(a) + SumNew(b)
    ensures SumRepl(a + b) == SumRepl(a) + SumRepl(b)
    ensures CountChanges(a + b) == CountChanges(a) + CountChanges(b)
  {
    if b == [] {
      assert a + b == a;
    } else {
      SumsAppend(a, b[..|b| - 1]);
      assert (a + b)[..|a + b| - 1] == a + b[..|b| - 1];
    }
  }

  lemma SumsEmpty()
    ensures SumOld([]) == SumNew([]) == SumRepl([]) == CountChanges([]) == 0
  {
  }

  lemma SumsOne(x: Span)
    ensures SumOld([x]) == x.oldLen && SumNew([x]) == x.newLen
    ensures SumRepl([x]) == if x.changed then x.newLen else 0
  {
    assert [x][..0] == [];
  }

  lemma SumsStep(ss: seq<Span>, k: nat)
    requires k < |ss|
    ensures SumOld(ss[..k + 1]) == SumOld(ss[..k]) + ss[k].oldLen
    ensures SumNew(ss[..k + 1]) == SumNew(ss[..k]) + ss[k].newLen
    ensures SumRepl(ss[..k + 1]) == SumRepl(ss[..k]) + if ss[k].changed then ss[k].newLen else 0
  {
    assert ss[..k + 1][..k] == ss[..k];
  }

  lemma {:induction false} SumsMonotone(ss: seq<Span>, j: nat, k: nat)
    requires j <= k <= |ss|
    ensures SumOld(ss[..j]) <= SumOld(ss[..k])
    ensures SumNew(ss[..j]) <= SumNew(ss[..k])
  {
    assert ss[..j] + ss[j..k] == ss[..k];
    SumsAppend(ss[..j], ss[j..k]);
  }

  lemma SumsPush(ss: seq<Span>, s: Span, coarse: bool)
    ensures SumOld(Push(ss, s, coarse)) == SumOld(ss) + s.oldLen
    ensures SumNew(Push(ss, s, coarse)) == SumNew(ss) + s.newLen
    ensures SumRepl(Push(ss, s, coarse)) == SumRepl(ss) + if s.changed then s.newLen else 0
    ensures !coarse ==> CountChanges(Push(ss, s, coarse)) == CountChanges(ss) + if s.changed then 1 else 0
  {
    var r := Push(ss, s, coarse);
    if ss != [] && Mergeable(ss[|ss| - 1], s, coarse) {
      assert r[..|r| - 1] == ss[..|ss| - 1];
    } else {
      assert r[..|r| - 1] == ss;
    }
  }

  lemma {:induction false} SumsPushAll(ss: seq<Span>, more: seq<Span>, coarse: bool)
    ensures SumOld(PushAll(ss, more, coarse)) == SumOld(ss) + SumOld(more)
    ensures SumNew(PushAll(ss, more, coarse)) == SumNew(ss) + SumNew(more)
    ensures SumRepl(PushAll(ss, more, coarse)) == SumRepl(ss) + SumRepl(more)
    ensures !coarse ==> CountChanges(PushAll(ss, more, coarse)) == CountChanges(ss) + CountChanges(more)
  {
    if more != [] {
      SumsPushAll(ss, more[..|more| - 1], coarse);
      SumsPush(PushAll(ss, more[..|more| - 1], coarse), more[|more| - 1], coarse);
    }
  }

  lemma BulkSnoc(ss: seq<Span>, s: Span)
    ensures Bulk(ss + [s]) == Bulk(ss) + BulkOf(s)
  {
    assert (ss + [s])[..|ss|] == ss;
  }

  lemma BulkPush(ss: seq<Span>, s: Span)
    ensures Bulk(Push(ss, s, false)) == Bulk(ss) + BulkOf(s)
  {
    hide Bulk;
    BulkSnoc(ss, s);
    if ss != [] && Mergeable(ss[|ss| - 1], s, false) {
      var front, last := ss[..|ss| - 1], ss[|ss| - 1];
      assert ss == front + [last];
      BulkSnoc(front, last);
      BulkSnoc(front, Join(last, s));
    }
  }

  /** Joining does not change what spans take. */
  lemma {:induction false} BulkNorm(raw: seq<Span>)
    ensures Bulk(Norm(raw, false)) == Bulk(raw)
  {
    hide Push;
    if raw != [] {
      BulkNorm(raw[..|raw| - 1]);
      BulkPush(Norm(raw[..|raw| - 1], false), raw[|raw| - 1]);
    }
  }

  // ----- Norm

  lemma {:induction false} PushAllAppend(ss: seq<Span>, a: seq<Span>, b: seq<Span>, coarse: bool)
    ensures PushAll(ss, a + b, coarse) == PushAll(PushAll(ss, a, coarse), b, coarse)
  {
    hide Push;
    if b == [] {
      assert a + b == a;
    } else {
      PushAllAppend(ss, a, b[..|b| - 1], coarse);
      assert (a + b)[..|a + b| - 1] == a + b[..|b| - 1];
    }
  }

  lemma PushAllSnoc(ss: seq<Span>, more: seq<Span>, s: Span)
    ensures PushAll(ss, more + [s], false) == Push(PushAll(ss, more, false), s, false)
  {
    hide Push;
    assert (more + [s])[..|more|] == more;
  }

  lemma NormLast(raw: seq<Span>, coarse: bool)
    requires raw != []
    ensures Norm(raw, coarse) != []
    ensures Norm(raw, coarse)[|Norm(raw, coarse)| - 1].changed == raw[|raw| - 1].changed
  {
  }

  lemma PushPrefix(n: seq<Span>, m: seq<Span>, x: Span, coarse: bool)
    requires m != []
    ensures Push(n + m, x, coarse) == n + Push(m, x, coarse)
  {
    assert (n + m)[..|n + m| - 1] == n + m[..|m| - 1];
  }

  /** At a seam the two sides normalize independently. */
  lemma {:induction false} NormAppend(a: seq<Span>, b: seq<Span>, coarse: bool)
    requires Seam(a, b, coarse)
    ensures Norm(a + b, coarse) == Norm(a, coarse) + Norm(b, coarse)
  {
    if b == [] {
      assert a + b == a;
    } else {
      var b', x := b[..|b| - 1], b[|b| - 1];
      assert (a + b)[..|a + b| - 1] == a + b';
      var n, m := Norm(a, coarse), Norm(b', coarse);
      assert Push(n + m, x, coarse) == n + Push(m, x, coarse) by {
        if b' == [] {
          if a != [] { NormLast(a, coarse); }
          assert n + m == n;
        } else {
          NormLast(b', coarse);
          PushPrefix(n, m, x, coarse);
        }
      }
      hide Push;
      NormAppend(a, b', coarse);
    }
  }

  predicate Uniform(raw: seq<Span>, changed: bool) {
    forall k :: 0 <= k < |raw| ==> raw[k].changed == changed
  }

  /** A run of spans that all join becomes one span. */
  lemma {:induction false} NormUniform(raw: seq<Span>, changed: bool, coarse: bool)
    requires raw != [] && Uniform(raw, changed) && (changed ==> coarse)
    ensures Norm(raw, coarse) == [Span(changed, SumOld(raw), SumNew(raw))]
  {
    var front := raw[..|raw| - 1];
    if front == [] {
      assert Norm(front, coarse) == [];
    } else {
      NormUniform(front, changed, coarse);
    }
  }

  /** At fine granularity change spans stay apart. */
  lemma {:induction false} NormFineChanges(raw: seq<Span>)
    requires Uniform(raw, true)
    ensures Norm(raw, false) == raw
  {
    if raw != [] {
      var front, x := raw[..|raw| - 1], raw[|raw| - 1];
      assert Push(front, x, false) == front + [x] == raw;
      hide Push;
      NormFineChanges(front);
    }
  }

  predicate Canonical(ss: seq<Span>, coarse: bool) {
    forall k :: 0 <= k < |ss| - 1 ==> !Mergeable(ss[k], ss[k + 1], coarse)
  }

  lemma {:induction false} PushAllCanonical(ss: seq<Span>, more: seq<Span>, coarse: bool)
    requires Canonical(ss, coarse)
    ensures Canonical(PushAll(ss, more, coarse), coarse)
  {
    if more != [] {
      PushAllCanonical(ss, more[..|more| - 1], coarse);
    }
  }

  lemma {:induction false} PushAllSound(ss: seq<Span>, more: seq<Span>, coarse: bool)
    requires Sound(ss) && Sound(more)
    ensures Sound(PushAll(ss, more, coarse))
  {
    if more != [] {
      PushAllSound(ss, more[..|more| - 1], coarse);
    }
  }

  lemma {:induction false} NormCanonical(ss: seq<Span>)
    requires Canonical(ss, false)
    ensures Norm(ss, false) == ss
  {
    if ss != [] {
      var n := |ss| - 1;
      NormCanonical(ss[..n]);
      if n > 0 { assert !Mergeable(ss[n - 1], ss[n], false); }
    }
  }

  // ----- maximal runs: an independent description of Norm

  function Flatten(groups: seq<seq<Span>>): seq<Span> {
    if groups == [] then [] else Flatten(groups[..|groups| - 1]) + groups[|groups| - 1]
  }

  /** A non-empty run of joinable spans. */
  ghost predicate Run(group: seq<Span>, coarse: bool) {
    && group != [] && Uniform(group, group[0].changed)
    && (group[0].changed && !coarse ==> |group| == 1)
  }

  /** Groups are runs, and no two neighbouring groups could be one run. */
  ghost predicate MaximalRuns(groups: seq<seq<Span>>, coarse: bool) {
    && (forall g :: 0 <= g < |groups| ==> Run(groups[g], coarse))
    && (forall g :: 0 < g < |groups| ==> Apart(groups, g, coarse))
  }

  ghost predicate Apart(groups: seq<seq<Span>>, g: int, coarse: bool)
    requires 0 < g < |groups|
  {
    groups[g - 1] != [] && groups[g] != [] && !Mergeable(groups[g - 1][0], groups[g][0], coarse)
  }

  function RunTotal(run: seq<Span>): Span
    requires run != []
  {
    Span(run[0].changed, SumOld(run), SumNew(run))
  }

  /** However a span list is cut into maximal runs, Norm yields exactly one total per run. */
  lemma {:induction false} NormTotalsMaximalRuns(groups: seq<seq<Span>>, coarse: bool)
    requires MaximalRuns(groups, coarse)
    ensures |Norm(Flatten(groups), coarse)| == |groups|
    ensures forall g :: 0 <= g < |groups| ==> groups[g] != [] && Norm(Flatten(groups), coarse)[g] == RunTotal(groups[g])
    ensures groups != [] ==>
              && Flatten(groups) != []
              && Flatten(groups)[|Flatten(groups)| - 1] == groups[|groups| - 1][|groups[|groups| - 1]| - 1]
  {
    hide Norm, Run, Mergeable, SumOld, SumNew;
    if groups == [] {
      assert Norm([], coarse) == [] by { NormEmpty(coarse); }
    } else {
      var n := |groups| - 1;
      var front, last := groups[..n], groups[n];
      FrontRuns(groups, coarse);
      NormTotalsMaximalRuns(front, coarse);
      assert Run(last, coarse);
      NormRun(last, coarse);
      if front != [] { LastApart(groups, coarse); }
      NormAppend(Flatten(front), last, coarse);
    }
  }

  lemma NormEmpty(coarse: bool)
    ensures Norm([], coarse) == []
  {
  }

  lemma FrontRuns(groups: seq<seq<Span>>, coarse: bool)
    requires MaximalRuns(groups, coarse) && groups != []
    ensures MaximalRuns(groups[..|groups| - 1], coarse)
  {
    hide Run;
    var front := groups[..|groups| - 1];
    forall g | 0 < g < |front| ensures Apart(front, g, coarse) { assert Apart(groups, g, coarse); }
  }

  /** A run becomes one span. */
  lemma NormRun(run: seq<Span>, coarse: bool)
    requires Run(run, coarse)
    ensures run != [] && Norm(run, coarse) == [RunTotal(run)]
  {
    if run[0].changed && !coarse {
      NormFineChanges(run);
      SumsOne(run[0]);
      hide SumOld, SumNew, Norm;
      assert run == [run[0]];
    } else {
      NormUniform(run, run[0].changed, coarse);
    }
  }

  /** The last group does not join what comes before it. */
  lemma LastApart(groups: seq<seq<Span>>, coarse: bool)
    requires MaximalRuns(groups, coarse) && |groups| > 1
    ensures var before, last := groups[|groups| - 2], groups[|groups| - 1];
            before != [] && last != [] && !Mergeable(before[|before| - 1], last[0], coarse)
  {
    var n := |groups| - 1;
    assert Apart(groups, n, coarse);
    assert Run(groups[n - 1], coarse) && Run(groups[n], coarse);
  }

  /** Every span list can be cut into maximal runs. */
  lemma {:induction false} MaximalRunsExist(raw: seq<Span>, coarse: bool) returns (groups: seq<seq<Span>>)
    ensures MaximalRuns(groups, coarse) && Flatten(groups) == raw
  {
    if raw == [] {
      groups := [];
    } else {
      var front := raw[..|raw| - 1];
      var x := raw[|raw| - 1];
      var gs := MaximalRunsExist(front, coarse);
      var n := |gs| - 1;
      hide Flatten, MaximalRuns, Run;
      if gs != [] {
        FrontRuns(gs, coarse);
        LastRun(gs, coarse);
      }
      if gs != [] && Mergeable(gs[n][0], x, coarse) {
        groups := gs[..n] + [gs[n] + [x]];
        JoinLast(gs, x, coarse);
      } else {
        groups := gs + [[x]];
        AddRun(gs, x, coarse);
      }
    }
  }

  lemma LastRun(groups: seq<seq<Span>>, coarse: bool)
    requires MaximalRuns(groups, coarse) && groups != []
    ensures Run(groups[|groups| - 1], coarse) && groups[|groups| - 1] != []
  {
  }

  lemma JoinLast(gs: seq<seq<Span>>, x: Span, coarse: bool)
    requires MaximalRuns(gs, coarse) && gs != [] && gs[|gs| - 1] != [] && Mergeable(gs[|gs| - 1][0], x, coarse)
    ensures var n := |gs| - 1;
            var groups := gs[..n] + [gs[n] + [x]];
            MaximalRuns(groups, coarse) && Flatten(groups) == Flatten(gs) + [x]
  {
    var n := |gs| - 1;
    var groups := gs[..n] + [gs[n] + [x]];
    assert groups[..n] == gs[..n];
    assert Run(gs[n], coarse);
    assert Run(groups[n], coarse);
    hide Run;
    forall g | 0 < g < |groups| ensures Apart(groups, g, coarse) { assert Apart(gs, g, coarse); }
  }

  lemma RunOfOne(x: Span, coarse: bool)
    ensures Run([x], coarse)
  {
  }

  lemma {:induction false} AddRun(gs: seq<seq<Span>>, x: Span, coarse: bool)
    requires MaximalRuns(gs, coarse) && (gs != [] ==> gs[|gs| - 1] != [] && !Mergeable(gs[|gs| - 1][0], x, coarse))
    ensures MaximalRuns(gs + [[x]], coarse) && Flatten(gs + [[x]]) == Flatten(gs) + [x]
  {
    hide Run, Mergeable;
    var groups := gs + [[x]];
    assert groups[..|gs|] == gs;
    RunOfOne(x, coarse);
    forall g | 0 <= g < |groups| ensures Run(groups[g], coarse) {
      if g < |gs| { assert groups[g] == gs[g]; }
    }
    forall g | 0 < g < |groups| ensures Apart(groups, g, coarse) {
      if g < |gs| { assert Apart(gs, g, coarse); }
    }
  }

  /** Coarse granularity is fine granularity with runs of changes joined. */
  lemma {:induction false} CoarseOfFine(raw: seq<Span>)
    ensures Norm(Norm(raw, false), true) == Norm(raw, true)
  {
    if raw != [] {
      var front, x := raw[..|raw| - 1], raw[|raw| - 1];
      CoarseOfFine(front);
      var n := Norm(front, false);
      PushJoin(n, x);
    }
  }

  lemma PushJoin(n: seq<Span>, x: Span)
    ensures Norm(Push(n, x, false), true) == Push(Norm(n, true), x, true)
  {
    var r := Push(n, x, false);
    if n != [] && Mergeable(n[|n| - 1], x, false) {
      assert r[..|r| - 1] == n[..|n| - 1];
      PushTwice(Norm(n[..|n| - 1], true), n[|n| - 1], x, true);
    } else {
      assert r[..|r| - 1] == n;
    }
  }

  lemma PushTwice(ss: seq<Span>, a: Span, b: Span, coarse: bool)
    requires Mergeable(a, b, coarse)
    ensures Push(Push(ss, a, coarse), b, coarse) == Push(ss, Join(a, b), coarse)
  {
  }

  /** Adding an unchanged span in two pieces. */
  lemma PushPieces(ss: seq<Span>, n: nat, m: nat)
    ensures Push(Push(ss, Span(false, n, n), false), Span(false, m, m), false)
         == Push(ss, Span(false, n + m, n + m), false)
  {
    PushTwice(ss, Span(false, n, n), Span(false, m, m), false);
  }

  // ----- the two granularities

  function Changes(ss: seq<Span>): seq<Span> {
    if ss == [] then []
    else Changes(ss[..|ss| - 1]) + if ss[|ss| - 1].changed then [ss[|ss| - 1]] else []
  }

  /** No two unchanged spans are neighbours. */
  ghost predicate KeptJoined(ss: seq<Span>) {
    forall k :: 0 < k < |ss| ==> ss[k - 1].changed || ss[k].changed
  }

  lemma {:induction false} FineStep(n: seq<Span>, x: Span)
    requires KeptJoined(n)
    ensures KeptJoined(Push(n, x, false))
    ensures Changes(Push(n, x, false)) == Changes(n) + if x.changed then [x] else []
  {
    var ss := Push(n, x, false);
    if n != [] && !n[|n| - 1].changed && !x.changed {
      assert ss[..|ss| - 1] == n[..|n| - 1];
    } else {
      assert ss[..|ss| - 1] == n;
    }
  }

  /** Fine granularity delivers every change by itself, and never two unchanged spans in a row. */
  lemma {:induction false} FineSpans(raw: seq<Span>)
    ensures Changes(Norm(raw, false)) == Changes(raw) && KeptJoined(Norm(raw, false))
  {
    hide Push, KeptJoined;
    if raw == [] {
      NothingKept();
    } else {
      var front := raw[..|raw| - 1];
      FineSpans(front);
      FineStep(Norm(front, false), raw[|raw| - 1]);
    }
  }

  lemma NothingKept()
    ensures KeptJoined([])
  {
  }

  /** Coarse granularity delivers changed and unchanged spans in turn. */
  lemma {:induction false} CoarseSpans(raw: seq<Span>)
    ensures var ss := Norm(raw, true); forall k :: 0 < k < |ss| ==> ss[k - 1].changed != ss[k].changed
  {
    if raw != [] {
      var front, x := raw[..|raw| - 1], raw[|raw| - 1];
      CoarseSpans(front);
      var n, ss := Norm(front, true), Norm(raw, true);
      assert ss == if n != [] && n[|n| - 1].changed == x.changed then n[..|n| - 1] + [Join(n[|n| - 1], x)] else n + [x];
    }
  }
}
