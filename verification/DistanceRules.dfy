/** What the distance between two locales is, told from the distance data alone. */
module DistanceRules {
  import opened Basics
  import opened LocaleDistance
  import opened LocaleSearch

  /** All of `x`, or its quarter rounded down if scripts are favored over languages. */
  predicate LanguageShare(favorScript: bool, x: int, share: int) {
    if favorScript then 4 * share <= x < 4 * share + 4 else share == x
  }

  /** The distance between two partitions of regions: by their rule, or else the one for any regions. */
  predicate PartitionDistance(data: Data, d: LSR, s: LSR, p: char, q: char, x: int) {
    match data.regionRule(d, s, p, q)
    case Some(value) => x == value
    case None => x == data.anyRegion(d, s)
  }

  /** The largest of the distances between a partition of the one region and a partition of the other. */
  ghost predicate Largest(data: Data, d: LSR, s: LSR, x: int) {
    && (exists p, q :: p in data.partitions(d.region) && q in data.partitions(s.region)
                       && PartitionDistance(data, d, s, p, q, x))
    && (forall p, q, y ::
          (p in data.partitions(d.region) && q in data.partitions(s.region) && PartitionDistance(data, d, s, p, q, y))
          ==> y <= x)
  }

  lemma {:induction false} RowLargest(data: Data, d: LSR, s: LSR, p: char, j: nat) returns (k: nat)
    requires ValidRegionRules(data, d, s) && 0 < j <= |data.partitions(s.region)|
    ensures k < j && PartitionDistance(data, d, s, p, data.partitions(s.region)[k], RowDistance(data, d, s, p, j))
  {
    var q := data.partitions(s.region)[j - 1];
    assert 0 <= PairDistance(data, d, s, p, q);
    k := j - 1;
    if j > 1 && PairDistance(data, d, s, p, q) <= RowDistance(data, d, s, p, j - 1) {
      k := RowLargest(data, d, s, p, j - 1);
    }
  }

  lemma {:induction false} RowsLargest(data: Data, d: LSR, s: LSR, i: nat) returns (k: nat, l: nat)
    requires ValidRegionRules(data, d, s) && data.partitions(s.region) != [] && 0 < i <= |data.partitions(d.region)|
    ensures k < i && l < |data.partitions(s.region)|
    ensures PartitionDistance(data, d, s, data.partitions(d.region)[k], data.partitions(s.region)[l],
                              RowsDistance(data, d, s, i))
  {
    var p, n := data.partitions(d.region)[i - 1], |data.partitions(s.region)|;
    RowBounds(data, d, s, p, n, n);
    hide RowDistance;
    k := i - 1;
    if i > 1 && RowDistance(data, d, s, p, n) <= RowsDistance(data, d, s, i - 1) {
      k, l := RowsLargest(data, d, s, i - 1);
    } else {
      l := RowLargest(data, d, s, p, n);
    }
  }

  /** The distance between different regions. */
  lemma RegionLargest(data: Data, d: LSR, s: LSR)
    requires ValidData(data)
    ensures Largest(data, d, s, RegionDistance(data, d, s))
  {
    assert ValidRegionRules(data, d, s);
    hide RowDistance, RowsDistance;
    var m, n := |data.partitions(d.region)|, |data.partitions(s.region)|;
    var i, j := RowsLargest(data, d, s, m);
    assert data.partitions(d.region)[i] in data.partitions(d.region);
    assert data.partitions(s.region)[j] in data.partitions(s.region);
    forall p, q, y | p in data.partitions(d.region) && q in data.partitions(s.region)
                     && PartitionDistance(data, d, s, p, q, y)
      ensures y <= RegionDistance(data, d, s)
    {
      var k :| 0 <= k < m && data.partitions(d.region)[k] == p;
      var l :| 0 <= l < n && data.partitions(s.region)[l] == q;
      RowsBounds(data, d, s, m, k);
      RowBounds(data, d, s, p, n, l);
    }
  }

  lemma OneLargest(data: Data, d: LSR, s: LSR, x: int, y: int)
    requires Largest(data, d, s, x) && Largest(data, d, s, y)
    ensures x == y
  {
  }

  /** The three parts of a distance and what they follow from. */
  ghost predicate Parts(data: Data, favorScript: bool, d: LSR, s: LSR, language: int, script: int, region: int) {
    match data.languageRule(d.language, s.language)
    case NoRule =>
      && LanguageShare(favorScript, if d.language == s.language then 0 else data.defaultLanguage, language)
      && script == (if d.script == s.script then 0 else data.defaultScript)
      && region == if d.region == s.region then 0 else data.defaultRegion
    case Rule(x, isFinal, skipScript) =>
      && LanguageShare(favorScript, x, language)
      && if isFinal then
           && script == (if d.script == s.script then 0 else data.defaultScript)
           && region == if d.region == s.region then 0 else data.defaultRegion
         else if skipScript then
           && script == (if d.script == s.script then 0 else data.defaultScript)
           && RegionPart(data, d, s, false, region)
         else
           match data.scriptRule(d, s)
           case Rule(y, last, _) => script == y && RegionPart(data, d, s, last, region)
           case NoRule =>
             match data.anyScript(d, s)
             case Rule(y, last, _) =>
               script == (if d.script == s.script then 0 else y) && RegionPart(data, d, s, last, region)
             case NoRule => false
  }

  /** Different regions: the default if the rules end before regions, or else by their partitions. */
  ghost predicate RegionPart(data: Data, d: LSR, s: LSR, ended: bool, region: int) {
    if d.region == s.region then region == 0
    else if ended then region == data.defaultRegion
    else Largest(data, d, s, region)
  }

  /** The distance is the sum of the three parts, whatever is left out on the way to it. */
  lemma DistanceParts(data: Data, favorScript: bool, d: LSR, s: LSR, language: int, script: int, region: int)
    requires ValidData(data) && Parts(data, favorScript, d, s, language, script, region)
    ensures FullDistance(data, favorScript, d, s) == language + script + region
  {
    hide Largest, RegionDistance, ValidRegionRules;
    RegionLargest(data, d, s);
    var r := RegionDistance(data, d, s);
    if Largest(data, d, s, region) { OneLargest(data, d, s, region, r); }
  }

  lemma PartsExist(data: Data, favorScript: bool, d: LSR, s: LSR) returns (language: int, script: int, region: int)
    requires ValidData(data)
    ensures Parts(data, favorScript, d, s, language, script, region)
  {
    RegionLargest(data, d, s);
    hide Largest, RegionDistance;
    var part := LanguageDistance(data, favorScript, d, s);
    language := part.distance;
    script := ScriptDistance(data, part, d, s).0;
    region := FullDistance(data, favorScript, d, s) - language - script;
  }

  /**
   Languages that differ in nothing else: the rule for them, or the default without one, in full if scripts are not
   favored, and a quarter of it, rounded down, if they are.
   */
  lemma LanguagesOnly(data: Data, favorScript: bool, d: LSR, s: LSR)
    requires ValidData(data) && d.script == s.script && d.region == s.region
    requires data.scriptRule(d, s).Rule? ==> data.scriptRule(d, s).distance == 0
    ensures var rule := data.languageRule(d.language, s.language);
            var x := if rule.Rule? then rule.distance else if d.language == s.language then 0 else data.defaultLanguage;
            FullDistance(data, favorScript, d, s) == if favorScript then x / 4 else x
  {
    var language, script, region := PartsExist(data, favorScript, d, s);
    hide FullDistance;
    DistanceParts(data, favorScript, d, s, language, script, region);
  }

  /** The same language without a rule: scripts and regions count with their default distances. */
  lemma SameLanguage(data: Data, favorScript: bool, d: LSR, s: LSR)
    requires ValidData(data) && d.language == s.language && data.languageRule(d.language, s.language).NoRule?
    ensures FullDistance(data, favorScript, d, s)
         == (if d.script == s.script then 0 else data.defaultScript)
            + if d.region == s.region then 0 else data.defaultRegion
  {
    var language, script, region := PartsExist(data, favorScript, d, s);
    hide FullDistance;
    DistanceParts(data, favorScript, d, s, language, script, region);
  }

  /** Favoring scripts takes away three quarters of what the languages add, rounded up, and nothing else. */
  lemma FavoringScripts(data: Data, d: LSR, s: LSR)
    requires ValidData(data)
    ensures var rule := data.languageRule(d.language, s.language);
            var x := if rule.Rule? then rule.distance else if d.language == s.language then 0 else data.defaultLanguage;
            FullDistance(data, false, d, s) - FullDistance(data, true, d, s) == x - x / 4
  {
    var language, script, region := PartsExist(data, false, d, s);
    hide FullDistance;
    DistanceParts(data, false, d, s, language, script, region);
    DistanceParts(data, true, d, s, language / 4, script, region);
  }

  /** Distances carry three fraction bits, which only locales at no distance use. */
  lemma ShiftedIs(data: Data, favorScript: bool, d: LSR, s: LSR)
    requires ValidData(data)
    ensures var full := FullDistance(data, favorScript, d, s);
            && (full > 0 ==> ShiftedDistance(data, favorScript, d, s) == 8 * full)
            && (full == 0 ==> 0 <= ShiftedDistance(data, favorScript, d, s) < 8)
            && (full == 0 && d.flags == s.flags ==> ShiftedDistance(data, favorScript, d, s) == 0)
            && (full == 0 && d.flags != s.flags ==> ShiftedDistance(data, favorScript, d, s) > 0)
  {
    hide FullDistance;
    DistancesNotNegative(data, favorScript, d, s);
    FlagsDiffer(d.flags, s.flags);
  }

  lemma FlagsDiffer(a: bv3, b: bv3)
    ensures (a ^ b) as int == 0 <==> a == b
  {
    assert (a ^ b) == 0 <==> a == b;
  }

  /** An index and a distance share an integer, ten bits of which are the distance. */
  lemma PackedIs(r: int)
    ensures r == 1024 * GetIndex(r) + GetShiftedDistance(r) && 0 <= GetShiftedDistance(r) < 1024
  {
  }

  /** Thresholds and demotions carry the same fraction bits. */
  lemma SettingsShifted(st: Settings, j: int)
    ensures Threshold(st) == 8 * st.thresholdDistance && Demoted(st, j) == j * (8 * st.demotion)
  {
  }

  // ----- locales at the same distance

  ghost predicate AtDistance(data: Data, favorScript: bool, d: LSR, supported: seq<LSR>, j: int, distance: int)
    requires ValidData(data)
  {
    0 <= j < |supported| && ShiftedDistance(data, favorScript, d, supported[j]) == distance
  }

  /** At less than a whole unit of distance, the first one is taken. */
  lemma {:induction false} FirstTaken(data: Data, favorScript: bool, d: LSR, supported: seq<LSR>, likely: Likely,
                                      n: int, distance: int, j: int)
    requires ValidData(data) && 0 <= j < n <= |supported| && distance < 8
    requires AtDistance(data, favorScript, d, supported, j, distance)
    ensures 0 <= Favorite(data, favorScript, d, supported, likely, n, distance) <= j
    decreases n
  {
    hide ShiftedDistance, ValidData;
    if j < n - 1 { FirstTaken(data, favorScript, d, supported, likely, n - 1, distance, j); }
  }

  /** Being more likely is a strict order in which locales may tie. */
  ghost predicate Ordering(likely: Likely) {
    && (forall a, b :: likely(a, b) ==> !likely(b, a))
    && (forall a, b, c :: likely(a, b) ==> likely(a, c) || likely(c, b))
  }

  /** At a whole unit or more, none is more likely than the one that is taken, and earlier ones are less likely. */
  lemma {:induction false} LikeliestTaken(data: Data, favorScript: bool, d: LSR, supported: seq<LSR>, likely: Likely,
                                          n: int, distance: int, j: int)
    requires ValidData(data) && 0 <= j < n <= |supported| && 8 <= distance && Ordering(likely)
    requires AtDistance(data, favorScript, d, supported, j, distance)
    ensures var k := Favorite(data, favorScript, d, supported, likely, n, distance);
            && k != -1 && !likely(supported[j], supported[k])
            && (j < k ==> likely(supported[k], supported[j]))
    decreases n
  {
    hide ShiftedDistance, ValidData;
    var k := Favorite(data, favorScript, d, supported, likely, n, distance);
    assert !likely(supported[k], supported[k]);
    if j < n - 1 {
      LikeliestTaken(data, favorScript, d, supported, likely, n - 1, distance, j);
      var k' := Favorite(data, favorScript, d, supported, likely, n - 1, distance);
      var a, b, c := supported[j], supported[k], supported[k'];
      assert likely(a, b) ==> likely(a, c) || likely(c, b);
      assert likely(b, c) ==> likely(b, a) || likely(a, c);
    }
  }

  // ----- French and English

  function French(): LSR { LSR("fr", "Latn", "FR", 7) }

  /** Without rules, French is 84 away from English, or 24 if scripts are favored. */
  lemma FrenchAndEnglish()
    ensures ValidData(NoRules())
    ensures ShiftedDistance(NoRules(), false, French(), English()) == 672
    ensures ShiftedDistance(NoRules(), true, French(), English()) == 192
  {
    var data, d, s := NoRules(), French(), English();
    assert ValidData(data);
    assert data.languageRule(d.language, s.language).NoRule? && d.language != s.language && d.region != s.region;
    DistanceParts(data, false, d, s, 80, 0, 4);
    DistanceParts(data, true, d, s, 20, 0, 4);
    ShiftedIs(data, false, d, s);
    ShiftedIs(data, true, d, s);
  }

  /** With the usual threshold, English is no match for French, unless scripts are favored. */
  method MatchFrench() returns (r: int, favoring: int)
    ensures r < 0 && favoring == 192
  {
    FrenchAndEnglish();
    hide NoRules, ShiftedDistance, ValidData, FullDistance, English, French;
    var supported := [English()];
    r := GetBestIndexAndDistance(NoRules(), false, French(), supported, 400, (a, b) => false);
    favoring := GetBestIndexAndDistance(NoRules(), true, French(), supported, 400, (a, b) => false);
    assert supported[0] == English();
    PackedIs(favoring);
  }
}
