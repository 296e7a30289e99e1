/**
 The search for the best match over several desired locales: each desired locale after the first is demoted
 by a fixed distance, the threshold shrinks as matches are found, and the search stops as soon as nothing
 better can follow.
 */
module LocaleSearch {
  import opened Basics
  import opened LocaleDistance
  import LocaleMatcher

  datatype Settings = Settings(data: Data, favorScript: bool, thresholdDistance: int, demotion: int, likely: Likely)

  /** No locale has a distance from itself. */
  ghost predicate SelfDistanceZero(st: Settings)
    requires ValidData(st.data)
  {
    forall d :: ShiftedDistance(st.data, st.favorScript, d, d) == 0
  }

  ghost predicate ValidSettings(st: Settings) {
    ValidData(st.data) && 0 <= st.thresholdDistance <= 128 && 0 <= st.demotion && SelfDistanceZero(st)
  }

  function Threshold(st: Settings): int { st.thresholdDistance * DISTANCE_SHIFT }

  function Demotion(st: Settings): int { st.demotion * DISTANCE_SHIFT }

  /** What desired locales lose by their position. */
  function Demoted(st: Settings, j: int): int { j * Demotion(st) }

  lemma DemotedMonotone(st: Settings, j: int, j': int)
    requires 0 <= j <= j' && 0 <= st.demotion
    ensures 0 <= Demoted(st, j) <= Demoted(st, j') && Demoted(st, j + 1) == Demoted(st, j) + Demotion(st)
  {
    assert Demoted(st, j') == Demoted(st, j) + (j' - j) * Demotion(st);
  }

  ghost function Cost(st: Settings, desired: seq<LSR>, supported: seq<LSR>, j: int, k: int): (c: int)
    requires ValidSettings(st) && 0 <= j < |desired| && 0 <= k < |supported|
    ensures Demoted(st, j) <= c
  {
    ShiftedDistance(st.data, st.favorScript, desired[j], supported[k]) + Demoted(st, j)
  }

  /** None of the first `m` desired locales has a match below the threshold. */
  ghost predicate NoMatch(st: Settings, desired: seq<LSR>, supported: seq<LSR>, m: int)
    requires ValidSettings(st) && 0 <= m <= |desired|
  {
    forall j, k :: 0 <= j < m && 0 <= k < |supported| ==> Threshold(st) <= Cost(st, desired, supported, j, k)
  }

  /** Of the supported locales at the same distance from `j`, `k` is equal to it or the one that is taken. */
  ghost predicate Picked(st: Settings, desired: seq<LSR>, supported: seq<LSR>, j: int, k: int)
    requires ValidSettings(st) && 0 <= j < |desired| && 0 <= k < |supported|
  {
    || supported[k] == desired[j]
    || k == Favorite(st.data, st.favorScript, desired[j], supported, st.likely, |supported|,
                     ShiftedDistance(st.data, st.favorScript, desired[j], supported[k]))
  }

  /** Among the first `m` desired locales, `j` and `k` cost least, and no earlier desired locale does as well. */
  ghost predicate BestMatch(st: Settings, desired: seq<LSR>, supported: seq<LSR>, m: int, j: int, k: int)
    requires ValidSettings(st) && 0 <= m <= |desired|
  {
    && 0 <= j < m && 0 <= k < |supported| && Cost(st, desired, supported, j, k) < Threshold(st)
    && Picked(st, desired, supported, j, k)
    && forall j', k' :: 0 <= j' < m && 0 <= k' < |supported| ==>
         && Cost(st, desired, supported, j, k) <= Cost(st, desired, supported, j', k')
         && (j' < j ==> Cost(st, desired, supported, j, k) < Cost(st, desired, supported, j', k'))
  }

  /** The outcome over the first `m` desired locales: `total` is the least cost, or the threshold without a match. */
  ghost predicate Outcome(st: Settings, desired: seq<LSR>, supported: seq<LSR>, m: int, j: int, k: int, total: int)
    requires ValidSettings(st) && 0 <= m <= |desired|
  {
    if k == -1 then j == -1 && total == Threshold(st) && NoMatch(st, desired, supported, m)
    else BestMatch(st, desired, supported, m, j, k) && total == Cost(st, desired, supported, j, k)
  }

  /** Nothing below the remaining threshold: the outcome stays. */
  lemma OutcomeStays(st: Settings, desired: seq<LSR>, supported: seq<LSR>, m: int, j: int, k: int, total: int)
    requires ValidSettings(st) && 0 <= m < |desired| && Outcome(st, desired, supported, m, j, k, total)
    requires NoneBelow(st.data, st.favorScript, desired[m], supported, |supported|, total - Demoted(st, m))
    ensures Outcome(st, desired, supported, m + 1, j, k, total)
  {
    hide ShiftedDistance, ValidSettings, Demoted, Threshold, Picked;
  }

  /** The nearest locale below the remaining threshold is the new outcome. */
  lemma OutcomeImproves(st: Settings, desired: seq<LSR>, supported: seq<LSR>, m: int, j: int, k: int, total: int,
                        k': int)
    requires ValidSettings(st) && 0 <= m < |desired| && Outcome(st, desired, supported, m, j, k, total)
    requires Nearest(st.data, st.favorScript, desired[m], supported, |supported|, total - Demoted(st, m), k')
    requires Picked(st, desired, supported, m, k')
    ensures var total' := ShiftedDistance(st.data, st.favorScript, desired[m], supported[k']) + Demoted(st, m);
            Outcome(st, desired, supported, m + 1, m, k', total') && total' < total
  {
    hide ShiftedDistance, ValidSettings, Demoted, Threshold, Picked;
    assert total <= Threshold(st);
  }

  /** Once the demotion uses up the threshold, later desired locales cannot do better. */
  lemma RestCannotWin(st: Settings, desired: seq<LSR>, supported: seq<LSR>, m: int, j: int, k: int, total: int)
    requires ValidSettings(st) && 0 <= m <= |desired| && Outcome(st, desired, supported, m, j, k, total)
    requires total <= Demoted(st, m)
    ensures Outcome(st, desired, supported, |desired|, j, k, total)
  {
    forall j', k' | m <= j' < |desired| && 0 <= k' < |supported| ensures total <= Cost(st, desired, supported, j', k') {
      DemotedMonotone(st, m, j');
    }
    hide ShiftedDistance, ValidSettings, Demoted, Threshold, Cost, Picked;
  }

  /** A supported locale equal to the desired one is the best match of all, as long as the threshold is not used up. */
  lemma ExactMatchWins(st: Settings, desired: seq<LSR>, supported: seq<LSR>, m: int, j: int, k: int, total: int,
                       k': int)
    requires ValidSettings(st) && 0 <= m < |desired| && Outcome(st, desired, supported, m, j, k, total)
    requires Demoted(st, m) < total && 0 <= k' < |supported| && supported[k'] == desired[m]
    ensures BestMatch(st, desired, supported, |desired|, m, k')
  {
    assert Cost(st, desired, supported, m, k') == Demoted(st, m);
    forall j', k'' | m <= j' < |desired| && 0 <= k'' < |supported|
      ensures Demoted(st, m) <= Cost(st, desired, supported, j', k'')
    {
      DemotedMonotone(st, m, j');
    }
    hide ShiftedDistance, ValidSettings, Demoted, Threshold, Cost, Picked;
  }

  lemma OutcomeMeans(st: Settings, desired: seq<LSR>, supported: seq<LSR>, j: int, k: int, total: int)
    requires ValidSettings(st) && Outcome(st, desired, supported, |desired|, j, k, total)
    ensures k == -1 ==> NoMatch(st, desired, supported, |desired|)
    ensures k != -1 ==> 0 <= k < |supported| && BestMatch(st, desired, supported, |desired|, j, k) && 0 < Threshold(st)
  {
    if k != -1 { DemotedMonotone(st, 0, j); }
  }

  lemma EntryOf(input: seq<LSR>, x: LocaleMatcher.Index, l: LSR) returns (k: int)
    requires LocaleMatcher.Consistent(input, x) && l in x.toIndex
    ensures 0 <= k < |x.lsrs| == |x.indexes| && x.lsrs[k] == l && x.toIndex[l] == x.indexes[k] >= 0
  {
    k :| 0 <= k < |x.lsrs| && x.lsrs[k] == l;
    assert LocaleMatcher.EntryOk(input, x, k);
  }

  lemma EntryAt(input: seq<LSR>, x: LocaleMatcher.Index, k: int)
    requires LocaleMatcher.Consistent(input, x) && 0 <= k < |x.lsrs|
    ensures |x.lsrs| == |x.indexes| && x.indexes[k] >= 0
  {
    assert LocaleMatcher.EntryOk(input, x, k);
  }

  /** Takes one more desired locale into account. */
  method Improve(st: Settings, desired: seq<LSR>, supported: seq<LSR>, j: int, bestIndex: int, best: int,
                 desiredIndex: int, ghost total: int)
    returns (bestIndex': int, best': int, desiredIndex': int, ghost total': int)
    requires ValidSettings(st) && 0 <= j < |desired| && |supported| <= 0x200000
    requires best == total - Demoted(st, j) && 0 <= best <= INDEX_SHIFT
    requires Outcome(st, desired, supported, j, desiredIndex, bestIndex, total)
    ensures Outcome(st, desired, supported, j + 1, desiredIndex', bestIndex', total')
    ensures best' == total' - Demoted(st, j) && 0 <= best' <= best && (bestIndex' != bestIndex ==> best' < best)
    ensures best == 0 ==> total' == total
  {
    bestIndex', best', desiredIndex', total' := bestIndex, best, desiredIndex, total;
    assert ValidData(st.data);
    hide ValidSettings, ShiftedDistance, Demoted, Outcome;
    var r := GetBestIndexAndDistance(st.data, st.favorScript, desired[j], supported, best, st.likely);
    if r >= 0 {
      best' := GetShiftedDistance(r);
      desiredIndex' := j;
      bestIndex' := GetIndex(r);
      total' := best' + Demoted(st, j);
      OutcomeImproves(st, desired, supported, j, desiredIndex, bestIndex, total, bestIndex');
    } else {
      OutcomeStays(st, desired, supported, j, desiredIndex, bestIndex, total);
    }
  }

  /**
   The position of the best supported locale, and which desired locale it matches: the least distance with
   demotion, earlier desired locales first, or nothing if there is no match below the threshold.
   */
  method GetBestSuppIndex(matcher: LocaleMatcher.Matcher, desired: seq<LSR>, st: Settings, failure: bool)
    returns (suppIndex: int, desiredIndex: int, ghost k: int)
    requires ValidSettings(st) && desired != [] && |matcher.supportedLSRs| <= 0x200000
    requires LocaleMatcher.Consistent(matcher.lsrs, matcher.Contents())
    ensures failure ==> suppIndex == -1
    ensures !failure && suppIndex == -1 ==> NoMatch(st, desired, matcher.supportedLSRs, |desired|)
    ensures !failure && suppIndex != -1 && 0 < Threshold(st) ==>
              && BestMatch(st, desired, matcher.supportedLSRs, |desired|, desiredIndex, k)
              && |matcher.supportedIndexes| == |matcher.supportedLSRs| && suppIndex == matcher.supportedIndexes[k] >= 0
    ensures !failure && Threshold(st) == 0 ==>
              suppIndex == if desired[0] in matcher.toIndex then matcher.toIndex[desired[0]] else -1
  {
    suppIndex, desiredIndex, k := -1, -1, -1;
    if failure {
      return;
    }
    var supported := matcher.supportedLSRs;
    assert 0 <= Threshold(st) <= INDEX_SHIFT && 0 <= Demotion(st);
    DemotedMonotone(st, 0, 0);
    assert Outcome(st, desired, supported, 0, -1, -1, Threshold(st));
    hide ValidSettings, ShiftedDistance, Demoted, LocaleMatcher.Consistent, Outcome, BestMatch, Threshold, Demotion;
    var j := 0;
    var bestIndex := -1;
    var best := Threshold(st);
    ghost var total := best;
    while true
      invariant 0 <= j < |desired| && best == total - Demoted(st, j) && 0 <= best <= INDEX_SHIFT
      invariant Outcome(st, desired, supported, j, desiredIndex, bestIndex, total)
      invariant best > 0 || (j == 0 && Threshold(st) == 0 && total == 0)
      invariant Threshold(st) == 0 ==> j == 0
      decreases |desired| - j
    {
      if desired[j] in matcher.toIndex {
        k := EntryOf(matcher.lsrs, matcher.Contents(), desired[j]);
        if best > 0 { ExactMatchWins(st, desired, supported, j, desiredIndex, bestIndex, total, k); }
        suppIndex, desiredIndex := matcher.toIndex[desired[j]], j;
        return;
      }
      bestIndex, best, desiredIndex, total := Improve(st, desired, supported, j, bestIndex, best, desiredIndex, total);
      DemotedMonotone(st, j, j);
      best := best - Demotion(st);
      if best <= 0 {
        RestCannotWin(st, desired, supported, j + 1, desiredIndex, bestIndex, total);
        break;
      }
      if j + 1 == |desired| {
        break;
      }
      j := j + 1;
    }
    OutcomeMeans(st, desired, supported, desiredIndex, bestIndex, total);
    if bestIndex < 0 {
      return;
    }
    k := bestIndex;
    EntryAt(matcher.lsrs, matcher.Contents(), k);
    suppIndex := matcher.supportedIndexes[bestIndex];
  }

  // ----- a threshold of zero

  /** Nothing is below a threshold of zero. */
  lemma NothingBelowZero(st: Settings, desired: seq<LSR>, supported: seq<LSR>)
    requires ValidSettings(st) && Threshold(st) == 0
    ensures NoMatch(st, desired, supported, |desired|)
  {
    forall j, k | 0 <= j < |desired| && 0 <= k < |supported| ensures 0 <= Cost(st, desired, supported, j, k) {
      DemotedMonotone(st, 0, j);
    }
    hide Cost, ValidSettings;
  }

  /** Distance data without any rules. */
  function NoRules(): Data {
    Data((a, b) => NoRule, (d, s) => NoRule, (d, s) => Rule(50, false, false), r => "*", (d, s, p) => false,
         (d, s, p, q) => None, (d, s) => 4, 80, 50, 4, 4)
  }

  function ZeroThreshold(): Settings { Settings(NoRules(), false, 0, 5, (a, b) => false) }

  function English(): LSR { LSR("en", "Latn", "US", 7) }

  lemma ZeroThresholdValid()
    ensures ValidSettings(ZeroThreshold()) && Threshold(ZeroThreshold()) == 0
  {
    var st := ZeroThreshold();
    assert ValidData(st.data);
    forall d ensures ShiftedDistance(st.data, st.favorScript, d, d) == 0 { SelfDistance(st.data, st.favorScript, d); }
  }

  /** With a threshold of zero, a locale finds itself, although its distance is not below the threshold. */
  method ExactMatchAtZero() returns (suppIndex: int)
    ensures ValidSettings(ZeroThreshold()) && Threshold(ZeroThreshold()) == 0
    ensures suppIndex == 0 && NoMatch(ZeroThreshold(), [English()], [English()], 1)
  {
    hide ValidSettings, NoMatch, Threshold, ZeroThreshold;
    ZeroThresholdValid();
    NothingBelowZero(ZeroThreshold(), [English()], [English()]);
    var matcher := new LocaleMatcher.Matcher([English()], None, false, []);
    OneEntry(matcher.Contents(), LocaleMatcher.DefaultOf([English()], None, false));
    var desiredIndex;
    ghost var k;
    suppIndex, desiredIndex, k := GetBestSuppIndex(matcher, [English()], ZeroThreshold(), false);
  }

  lemma AtMostOneEntry(lsrs: seq<LSR>)
    requires forall a, b :: 0 <= a < b < |lsrs| ==> lsrs[a] != lsrs[b]
    requires forall k :: 0 <= k < |lsrs| ==> lsrs[k] == English()
    ensures |lsrs| <= 1
  {
    var n := |lsrs|;
    if n > 0 { assert lsrs[0] == lsrs[n - 1]; }
  }

  lemma OneEntry(x: LocaleMatcher.Index, default: Option<LSR>)
    requires LocaleMatcher.Progress([English()], LocaleMatcher.ClassList([English()], default, []), x, 4, 0)
    ensures LocaleMatcher.Consistent([English()], x) && |x.lsrs| <= 1
    ensures English() in x.toIndex && x.toIndex[English()] == 0
  {
    LocaleMatcher.CompleteIndex([English()], default, [], x);
    assert [English()][0] == English();
    forall k | 0 <= k < |x.lsrs| ensures x.lsrs[k] == English() {
      assert LocaleMatcher.EntryOk([English()], x, k);
    }
    AtMostOneEntry(x.lsrs);
  }
}
