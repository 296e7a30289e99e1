/**
 The distance between a desired and a supported locale, and the search for the supported locale with the
 smallest distance. The search skips candidates and parts of the computation once the distance is known to
 be too large; the lookups in the distance data are functions.
 */
module LocaleDistance {
  import opened Basics

  /** Maximized language, script and region, and which of them were given explicitly. */
  datatype LSR = LSR(language: string, script: string, region: string, flags: bv3)

  /** A distance with the markers that end or shorten the lookups that follow. */
  datatype Rule = NoRule | Rule(distance: int, isFinal: bool, skipScript: bool)

  /**
   The distance data. Region rules are looked up for pairs of region partitions, and only for desired
   partitions that have rules.
   */
  datatype Data = Data(languageRule: (string, string) -> Rule,
                       scriptRule: (LSR, LSR) -> Rule, anyScript: (LSR, LSR) -> Rule,
                       partitions: string -> seq<char>, hasRules: (LSR, LSR, char) -> bool,
                       regionRule: (LSR, LSR, char, char) -> Option<int>, anyRegion: (LSR, LSR) -> int,
                       defaultLanguage: int, defaultScript: int, defaultRegion: int, minRegion: int)

  const DISTANCE_SHIFT := 8
  const INDEX_SHIFT := 1024
  const ABOVE_THRESHOLD := 100

  ghost predicate ValidRegionRules(data: Data, d: LSR, s: LSR) {
    && 0 <= data.minRegion <= data.anyRegion(d, s)
    && forall p, q :: data.regionRule(d, s, p, q).Some? ==>
         data.hasRules(d, s, p) && data.minRegion <= data.regionRule(d, s, p, q).value
  }

  /** Distances are not negative, and no region distance is below the stated minimum. */
  ghost predicate ValidData(data: Data) {
    && 0 <= data.defaultLanguage && 0 <= data.defaultScript && 0 <= data.defaultRegion
    && (forall a, b :: data.languageRule(a, b).Rule? ==> 0 <= data.languageRule(a, b).distance)
    && (forall d, s :: data.scriptRule(d, s).Rule? ==> 0 <= data.scriptRule(d, s).distance)
    && (forall d, s :: data.anyScript(d, s).Rule? && 0 <= data.anyScript(d, s).distance)
    && (forall r :: data.partitions(r) != [])
    && (forall d, s :: ValidRegionRules(data, d, s))
  }

  // ----- regions

  function Max(a: int, b: int): int { if a < b then b else a }

  /** Distance between two region partitions. */
  function PairDistance(data: Data, d: LSR, s: LSR, p: char, q: char): int {
    var r := data.regionRule(d, s, p, q);
    if r.Some? then r.value else data.anyRegion(d, s)
  }

  /** Largest distance between partition `p` and the first `j` partitions of the supported region. */
  function RowDistance(data: Data, d: LSR, s: LSR, p: char, j: nat): int
    requires j <= |data.partitions(s.region)|
  {
    if j == 0 then 0
    else Max(RowDistance(data, d, s, p, j - 1), PairDistance(data, d, s, p, data.partitions(s.region)[j - 1]))
  }

  /** Largest distance between the first `i` partitions of the desired region and those of the supported one. */
  function RowsDistance(data: Data, d: LSR, s: LSR, i: nat): int
    requires i <= |data.partitions(d.region)|
  {
    if i == 0 then 0
    else Max(RowsDistance(data, d, s, i - 1),
             RowDistance(data, d, s, data.partitions(d.region)[i - 1], |data.partitions(s.region)|))
  }

  /** Distance between different regions: the largest one between their partitions. */
  function RegionDistance(data: Data, d: LSR, s: LSR): int {
    RowsDistance(data, d, s, |data.partitions(d.region)|)
  }

  lemma {:induction false} RowBounds(data: Data, d: LSR, s: LSR, p: char, j: nat, k: nat)
    requires k <= j <= |data.partitions(s.region)|
    ensures 0 <= RowDistance(data, d, s, p, k) <= RowDistance(data, d, s, p, j)
    ensures k < j ==> PairDistance(data, d, s, p, data.partitions(s.region)[k]) <= RowDistance(data, d, s, p, j)
    decreases j
  {
    if k < j { RowBounds(data, d, s, p, j - 1, k); }
    else if j > 0 { RowBounds(data, d, s, p, j - 1, j - 1); }
  }

  lemma {:induction false} RowsBounds(data: Data, d: LSR, s: LSR, i: nat, k: nat)
    requires k <= i <= |data.partitions(d.region)|
    ensures 0 <= RowsDistance(data, d, s, k) <= RowsDistance(data, d, s, i)
    ensures k < i ==>
              RowDistance(data, d, s, data.partitions(d.region)[k], |data.partitions(s.region)|)
              <= RowsDistance(data, d, s, i)
    decreases i
  {
    if k < i { RowsBounds(data, d, s, i - 1, k); }
    else if i > 0 { RowsBounds(data, d, s, i - 1, i - 1); }
  }

  /** Without rules for partition `p`, all its distances are the fallback distance. */
  lemma {:induction false} RowWithoutRules(data: Data, d: LSR, s: LSR, p: char, j: nat)
    requires ValidRegionRules(data, d, s) && !data.hasRules(d, s, p) && j <= |data.partitions(s.region)|
    ensures RowDistance(data, d, s, p, j) == if j == 0 then 0 else data.anyRegion(d, s)
  {
    if j > 0 { RowWithoutRules(data, d, s, p, j - 1); }
  }

  lemma RegionAtLeastMin(data: Data, d: LSR, s: LSR)
    requires ValidData(data)
    ensures data.minRegion <= RegionDistance(data, d, s)
  {
    assert ValidRegionRules(data, d, s);
    var p := data.partitions(d.region)[0];
    RowsBounds(data, d, s, |data.partitions(d.region)|, 0);
    RowBounds(data, d, s, p, |data.partitions(s.region)|, 0);
    var q := data.partitions(s.region)[0];
    assert data.minRegion <= PairDistance(data, d, s, p, q);
  }

  /** What a thresholded computation may give instead of `full`: anything above the threshold if `full` is above it. */
  predicate Agrees(r: int, full: int, threshold: int) {
    if full <= threshold then r == full else r > threshold
  }

  /** The distances of one desired partition; the fallback distance is taken into account only once. */
  method AddRow(data: Data, d: LSR, s: LSR, p: char, threshold: int, distance: int, star: bool)
    returns (distance': int, star': bool, above: bool)
    requires ValidRegionRules(data, d, s) && data.partitions(s.region) != [] && data.hasRules(d, s, p)
    requires 0 <= distance <= threshold && (star ==> data.anyRegion(d, s) <= distance)
    ensures !above ==> distance' == Max(distance, RowDistance(data, d, s, p, |data.partitions(s.region)|))
    ensures !above ==> distance' <= threshold && (star' ==> data.anyRegion(d, s) <= distance')
    ensures above ==> threshold < distance' <= RowDistance(data, d, s, p, |data.partitions(s.region)|)
  {
    distance', star', above := distance, star, false;
    var supported := data.partitions(s.region);
    var j := 0;
    while j < |supported|
      invariant 0 <= j <= |supported|
      invariant distance' == Max(distance, RowDistance(data, d, s, p, j)) <= threshold
      invariant star' ==> data.anyRegion(d, s) <= distance'
    {
      var x;
      var rule := data.regionRule(d, s, p, supported[j]);
      if rule.Some? {
        x := rule.value;
      } else if star' {
        x := 0;
      } else {
        x := data.anyRegion(d, s);
        star' := true;
      }
      if x > threshold {
        RowBounds(data, d, s, p, |supported|, j);
        return x, star', true;
      } else if distance' < x {
        distance' := x;
      }
      j := j + 1;
    }
  }

  /** Distance between the regions' partitions, given up once it is above the threshold. */
  method GetRegionPartitionsDistance(data: Data, d: LSR, s: LSR, threshold: int) returns (distance: int)
    requires ValidRegionRules(data, d, s) && 0 <= threshold
    requires data.partitions(d.region) != [] && data.partitions(s.region) != []
    ensures Agrees(distance, RegionDistance(data, d, s), threshold)
  {
    var desired, supported := data.partitions(d.region), data.partitions(s.region);
    if |desired| == 1 && |supported| == 1 {
      assert RegionDistance(data, d, s) == PairDistance(data, d, s, desired[0], supported[0]) by {
        SinglePair(data, d, s);
      }
      if data.hasRules(d, s, desired[0]) {
        var rule := data.regionRule(d, s, desired[0], supported[0]);
        if rule.Some? {
          return rule.value;
        }
      }
      return data.anyRegion(d, s);
    }
    hide RowDistance;
    distance := 0;
    var star := false;
    var i := 0;
    while i < |desired|
      invariant 0 <= i <= |desired| && distance == RowsDistance(data, d, s, i) <= threshold
      invariant star ==> data.anyRegion(d, s) <= distance
    {
      ghost var row := RowDistance(data, d, s, desired[i], |supported|);
      RowsBounds(data, d, s, |desired|, i);
      if data.hasRules(d, s, desired[i]) {
        var above;
        distance, star, above := AddRow(data, d, s, desired[i], threshold, distance, star);
        if above {
          return;
        }
      } else {
        RowWithoutRules(data, d, s, desired[i], |supported|);
        if !star {
          var x := data.anyRegion(d, s);
          if x > threshold {
            return x;
          } else if distance < x {
            distance := x;
          }
          star := true;
        }
      }
      i := i + 1;
    }
  }

  lemma SinglePair(data: Data, d: LSR, s: LSR)
    requires ValidRegionRules(data, d, s) && |data.partitions(d.region)| == 1 && |data.partitions(s.region)| == 1
    ensures RegionDistance(data, d, s)
            == PairDistance(data, d, s, data.partitions(d.region)[0], data.partitions(s.region)[0])
  {
    var p, q := data.partitions(d.region)[0], data.partitions(s.region)[0];
    assert RowDistance(data, d, s, p, 0) == 0 && RowsDistance(data, d, s, 0) == 0;
    assert RowDistance(data, d, s, p, 1) == PairDistance(data, d, s, p, q);
  }

  // ----- the whole distance

  /** Language distance and what the language rule says about script and region; `star` if there is no rule. */
  datatype LanguagePart = LanguagePart(distance: int, isFinal: bool, skipScript: bool, star: bool)

  function LanguageDistance(data: Data, favorScript: bool, d: LSR, s: LSR): LanguagePart {
    var rule := data.languageRule(d.language, s.language);
    var part :=
      if rule.Rule? then LanguagePart(rule.distance, rule.isFinal, rule.skipScript, false)
      else LanguagePart(if d.language == s.language then 0 else data.defaultLanguage, false, false, true);
    if favorScript then part.(distance := part.distance / 4) else part
  }

  /** Script distance, and whether no region rules follow. */
  function ScriptDistance(data: Data, part: LanguagePart, d: LSR, s: LSR): (r: (int, bool))
    requires data.anyScript(d, s).Rule?
  {
    if part.star || part.isFinal || part.skipScript then
      (if d.script == s.script then 0 else data.defaultScript, part.isFinal)
    else
      var rule := data.scriptRule(d, s);
      if rule.Rule? then (rule.distance, rule.isFinal)
      else (if d.script == s.script then 0 else data.anyScript(d, s).distance, data.anyScript(d, s).isFinal)
  }

  /** The distance without any pruning. */
  ghost function FullDistance(data: Data, favorScript: bool, d: LSR, s: LSR): int
    requires ValidData(data)
  {
    var language := LanguageDistance(data, favorScript, d, s);
    var script := ScriptDistance(data, language, d, s);
    language.distance + script.0 +
      if d.region == s.region then 0
      else if language.star || script.1 then data.defaultRegion
      else RegionDistance(data, d, s)
  }

  lemma DistancesNotNegative(data: Data, favorScript: bool, d: LSR, s: LSR)
    requires ValidData(data)
    ensures var language := LanguageDistance(data, favorScript, d, s);
            && 0 <= language.distance && 0 <= ScriptDistance(data, language, d, s).0
            && 0 <= RegionDistance(data, d, s) && 0 <= FullDistance(data, favorScript, d, s)
  {
    RowsBounds(data, d, s, |data.partitions(d.region)|, 0);
    hide RegionDistance;
  }

  /** The distance with fraction bits, which tell equivalent locales apart that were given differently. */
  ghost function ShiftedDistance(data: Data, favorScript: bool, d: LSR, s: LSR): (r: int)
    requires ValidData(data)
    ensures 0 <= r
  {
    DistancesNotNegative(data, favorScript, d, s);
    var full := FullDistance(data, favorScript, d, s);
    if full == 0 then (d.flags ^ s.flags) as int else full * DISTANCE_SHIFT
  }

  /** A locale has no distance from itself if the data has none between equal subtags. */
  lemma SelfDistance(data: Data, favorScript: bool, d: LSR)
    requires ValidData(data)
    requires data.languageRule(d.language, d.language).Rule? ==> data.languageRule(d.language, d.language).distance == 0
    requires data.scriptRule(d, d).Rule? ==> data.scriptRule(d, d).distance == 0
    ensures ShiftedDistance(data, favorScript, d, d) == 0
  {
    assert d.flags ^ d.flags == 0;
  }

  /** Threshold for distances without fraction bits, rounded up. */
  function RoundedThreshold(threshold: int): int { (threshold + DISTANCE_SHIFT - 1) / DISTANCE_SHIFT }

  lemma AboveRounded(distance: int, threshold: int)
    requires distance > RoundedThreshold(threshold)
    ensures distance * DISTANCE_SHIFT > threshold
  {
  }

  /** The distance of one candidate, given up once it is above the threshold. */
  method CandidateDistance(data: Data, favorScript: bool, d: LSR, s: LSR, threshold: int)
    returns (distance: Option<int>)
    requires ValidData(data) && 0 <= threshold
    ensures var full := FullDistance(data, favorScript, d, s);
            if distance.None? then full > RoundedThreshold(threshold)
            else Agrees(distance.value, full, RoundedThreshold(threshold))
  {
    DistancesNotNegative(data, favorScript, d, s);
    RegionAtLeastMin(data, d, s);
    assert ValidRegionRules(data, d, s);
    hide RegionDistance, LanguageDistance, ScriptDistance, ValidRegionRules;
    var language := LanguageDistance(data, favorScript, d, s);
    var rounded := RoundedThreshold(threshold);
    if language.distance > rounded {
      return None;
    }
    var script := ScriptDistance(data, language, d, s);
    var sum := language.distance + script.0;
    if sum > rounded {
      return None;
    }
    if d.region == s.region {
    } else if language.star || script.1 {
      sum := sum + data.defaultRegion;
    } else {
      var remaining := rounded - sum;
      if data.minRegion > remaining {
        return None;
      }
      var region := GetRegionPartitionsDistance(data, d, s, remaining);
      sum := sum + region;
    }
    return Some(sum);
  }

  /** Candidate `k` has the smallest distance among the first `n`, and it is below the threshold. */
  ghost predicate Nearest(data: Data, favorScript: bool, d: LSR, supported: seq<LSR>, n: int, threshold: int, k: int)
    requires ValidData(data) && 0 <= n <= |supported|
  {
    && 0 <= k < n && ShiftedDistance(data, favorScript, d, supported[k]) < threshold
    && forall j :: 0 <= j < n ==>
         ShiftedDistance(data, favorScript, d, supported[k]) <= ShiftedDistance(data, favorScript, d, supported[j])
  }

  ghost predicate NoneBelow(data: Data, favorScript: bool, d: LSR, supported: seq<LSR>, n: int, threshold: int)
    requires ValidData(data) && 0 <= n <= |supported|
  {
    forall j :: 0 <= j < n ==> threshold <= ShiftedDistance(data, favorScript, d, supported[j])
  }

  /** Says which of two supported locales is more likely, for locales at the same distance. */
  type Likely = (LSR, LSR) -> bool

  /**
   The one that is taken of the candidates at a distance: the first, unless the distance is more than a
   difference of flags and a later one is more likely than the one taken before it.
   */
  ghost function Favorite(data: Data, favorScript: bool, d: LSR, supported: seq<LSR>, likely: Likely, n: int,
                          distance: int): (k: int)
    requires ValidData(data) && 0 <= n <= |supported|
    ensures k == -1 || (0 <= k < n && ShiftedDistance(data, favorScript, d, supported[k]) == distance)
    ensures k == -1 ==> forall j :: 0 <= j < n ==> ShiftedDistance(data, favorScript, d, supported[j]) != distance
  {
    if n == 0 then -1
    else
      var k := Favorite(data, favorScript, d, supported, likely, n - 1, distance);
      if ShiftedDistance(data, favorScript, d, supported[n - 1]) != distance then k
      else if k == -1 || (DISTANCE_SHIFT <= distance && likely(supported[n - 1], supported[k])) then n - 1
      else k
  }

  /** The best candidate among the first `n`, if any is below the threshold, and its distance. */
  ghost predicate BestSoFar(data: Data, favorScript: bool, d: LSR, supported: seq<LSR>, likely: Likely, n: int,
                            threshold: int, bestIndex: int, best: int)
    requires ValidData(data) && 0 <= n <= |supported|
  {
    if bestIndex == -1 then best == threshold && NoneBelow(data, favorScript, d, supported, n, threshold)
    else && Nearest(data, favorScript, d, supported, n, threshold, bestIndex)
         && best == ShiftedDistance(data, favorScript, d, supported[bestIndex])
         && bestIndex == Favorite(data, favorScript, d, supported, likely, n, best)
  }

  function GetIndex(indexAndDistance: int): int { indexAndDistance / INDEX_SHIFT }

  function GetShiftedDistance(indexAndDistance: int): int { indexAndDistance % INDEX_SHIFT }

  function Pack(index: int, distance: int): int { index * INDEX_SHIFT + distance }

  lemma PackRoundTrip(index: int, distance: int)
    requires 0 <= distance < INDEX_SHIFT
    ensures GetIndex(Pack(index, distance)) == index && GetShiftedDistance(Pack(index, distance)) == distance
  {
  }

  /** After one more candidate: it replaces the best one if it is nearer, or as near and more likely. */
  lemma BestStep(data: Data, favorScript: bool, d: LSR, supported: seq<LSR>, likely: Likely, k: int, threshold: int,
                 bestIndex: int, best: int)
    requires ValidData(data) && 0 <= k < |supported|
    requires BestSoFar(data, favorScript, d, supported, likely, k, threshold, bestIndex, best)
    ensures var shifted := ShiftedDistance(data, favorScript, d, supported[k]);
            var taken := bestIndex != -1 && DISTANCE_SHIFT <= best && likely(supported[k], supported[bestIndex]);
            && best <= threshold
            && (best < shifted || (shifted == best && !taken) ==>
                  BestSoFar(data, favorScript, d, supported, likely, k + 1, threshold, bestIndex, best))
            && (shifted < best || (shifted == best && taken) ==>
                  BestSoFar(data, favorScript, d, supported, likely, k + 1, threshold, k, shifted))
  {
    hide ShiftedDistance, ValidData;
    var shifted := ShiftedDistance(data, favorScript, d, supported[k]);
    if shifted < best {
      assert Favorite(data, favorScript, d, supported, likely, k, shifted) == -1;
    }
  }

  /** Nothing is nearer than a locale at no distance, and the first one stays. */
  lemma {:induction false} FirstAtNone(data: Data, favorScript: bool, d: LSR, supported: seq<LSR>, likely: Likely,
                                       n: int, threshold: int, k: int)
    requires ValidData(data) && 0 <= n <= |supported|
    requires BestSoFar(data, favorScript, d, supported, likely, n, threshold, k, 0) && k != -1
    ensures BestSoFar(data, favorScript, d, supported, likely, |supported|, threshold, k, 0)
    decreases |supported| - n
  {
    hide ValidData, ShiftedDistance;
    if n < |supported| {
      DistancesNotNegative(data, favorScript, d, supported[n]);
      BestStep(data, favorScript, d, supported, likely, n, threshold, k, 0);
      FirstAtNone(data, favorScript, d, supported, likely, n + 1, threshold, k);
    }
  }

  /** The distance of a candidate with fraction bits, exact if it is not above the threshold. */
  method CandidateShifted(data: Data, favorScript: bool, d: LSR, s: LSR, threshold: int) returns (shifted: Option<int>)
    requires ValidData(data) && 0 <= threshold
    ensures var full := ShiftedDistance(data, favorScript, d, s);
            if shifted.None? then full > threshold else Agrees(shifted.value, full, threshold)
  {
    DistancesNotNegative(data, favorScript, d, s);
    hide FullDistance, ValidData;
    var distance := CandidateDistance(data, favorScript, d, s, threshold);
    ghost var full := FullDistance(data, favorScript, d, s);
    if full > RoundedThreshold(threshold) { AboveRounded(full, threshold); }
    if distance.None? {
      return None;
    }
    if distance.value > RoundedThreshold(threshold) { AboveRounded(distance.value, threshold); }
    if distance.value == 0 {
      return Some((d.flags ^ s.flags) as int);
    }
    return Some(distance.value * DISTANCE_SHIFT);
  }

  /**
   Finds the supported locale nearest to the desired one and packs its index and distance. Among locales at
   the same distance, a more likely one is taken; a locale at no distance is taken at once.
   */
  method GetBestIndexAndDistance(data: Data, favorScript: bool, d: LSR, supported: seq<LSR>, threshold: int,
                                 likely: Likely)
    returns (r: int)
    requires ValidData(data) && 0 <= threshold <= INDEX_SHIFT && |supported| <= 0x200000
    ensures r >= 0 <==> !NoneBelow(data, favorScript, d, supported, |supported|, threshold)
    ensures r >= 0 ==> Nearest(data, favorScript, d, supported, |supported|, threshold, GetIndex(r))
    ensures r >= 0 ==> GetShiftedDistance(r) == ShiftedDistance(data, favorScript, d, supported[GetIndex(r)])
    ensures r >= 0 ==>
              GetIndex(r) == Favorite(data, favorScript, d, supported, likely, |supported|, GetShiftedDistance(r))
    ensures r < 0 ==> GetIndex(r) == -1 && GetShiftedDistance(r) == ABOVE_THRESHOLD * DISTANCE_SHIFT
    ensures r < 0x8000_0000
  {
    hide ShiftedDistance, ValidData, Favorite;
    var bestIndex := -1;
    var best := threshold;
    var k := 0;
    while k < |supported|
      invariant 0 <= k <= |supported| && 0 <= best <= threshold
      invariant BestSoFar(data, favorScript, d, supported, likely, k, threshold, bestIndex, best)
    {
      BestStep(data, favorScript, d, supported, likely, k, threshold, bestIndex, best);
      var shifted := CandidateShifted(data, favorScript, d, supported[k], best);
      if shifted.Some? {
        if shifted.value < best {
          if shifted.value == 0 {
            FirstAtNone(data, favorScript, d, supported, likely, k + 1, threshold, k);
            PackRoundTrip(k, 0);
            return Pack(k, 0);
          }
          bestIndex, best := k, shifted.value;
        } else if DISTANCE_SHIFT <= shifted.value == best && bestIndex >= 0
                  && likely(supported[k], supported[bestIndex]) {
          bestIndex := k;
        }
      }
      k := k + 1;
    }
    if bestIndex >= 0 {
      PackRoundTrip(bestIndex, best);
      return Pack(bestIndex, best);
    } else {
      PackRoundTrip(-1, ABOVE_THRESHOLD * DISTANCE_SHIFT);
      return Pack(-1, ABOVE_THRESHOLD * DISTANCE_SHIFT);
    }
  }
}
