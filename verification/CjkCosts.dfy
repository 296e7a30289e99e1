/**
 What the tables of the segmentation mean: they hold the least costs and spell out cheapest segmentations
 exactly if no sum wraps around to one that undercuts them. This is so if no segmentation costs too much.
 */
module CjkCosts {
  import opened CjkSegment

  /** A segmentation up to `j` that costs no more than any other. */
  ghost predicate CheapestTo(text: seq<int>, dict: seq<seq<Word>>, path: seq<Step>, j: int)
    requires ValidMatches(text, dict)
  {
    IsPath(text, dict, path, j) && forall other :: IsPath(text, dict, other, j) ==> Cost(path) <= Cost(other)
  }

  /** The entries for `j` are right: the least cost and the words of a cheapest segmentation, if there is one. */
  ghost predicate RightAt(text: seq<int>, dict: seq<seq<Word>>, best: seq<int>, prev: seq<int>, j: int)
    requires ValidMatches(text, dict) && Tables(best, prev, |text|) && 0 <= j <= |text|
  {
    if Reach(text, dict, j) then
      && best[j] != UINT32_MAX
      && exists path :: CheapestTo(text, dict, path, j) && Spelled(best, prev, path, j)
    else best[j] == UINT32_MAX
  }

  ghost predicate Spelled(best: seq<int>, prev: seq<int>, path: seq<Step>, j: int)
    requires 0 <= j < |best| == |prev|
  {
    Cost(path) == best[j] && Ends(path) == Chain(prev, j)
  }

  ghost predicate Right(text: seq<int>, dict: seq<seq<Word>>, best: seq<int>, prev: seq<int>)
    requires ValidMatches(text, dict) && Tables(best, prev, |text|)
  {
    forall j :: 0 <= j <= |text| ==> RightAt(text, dict, best, prev, j)
  }

  /**
   Word `k` at `i`, after a segmentation that costs `c`, does no harm: in unsigned 32-bit arithmetic the sum is
   not less than the least cost up to the end of the word, which fits, and if it is equal, a cheapest
   segmentation up to there has a last word that starts at `i` or before.
   */
  ghost predicate HarmlessSum(text: seq<int>, dict: seq<seq<Word>>, c: int, i: int, k: int)
    requires ValidMatches(text, dict) && 0 <= i < |text| && 0 <= k < |Words(text, dict, i)|
  {
    var w := Words(text, dict, i)[k];
    var j, sum := i + w.length, Wrapped(c + w.cost);
    exists path :: CheapestTo(text, dict, path, j) && NotUndercut(path, sum, i)
  }

  ghost predicate NotUndercut(path: seq<Step>, sum: int, i: int) {
    && Cost(path) < UINT32_MAX
    && (Cost(path) < sum || (Cost(path) == sum && path != [] && path[|path| - 1].from <= i))
  }

  ghost predicate Harmless(text: seq<int>, dict: seq<seq<Word>>)
    requires ValidMatches(text, dict)
  {
    forall path, i, k :: 0 <= i < |text| && 0 <= k < |Words(text, dict, i)| && CheapestTo(text, dict, path, i) ==>
      HarmlessSum(text, dict, Cost(path), i, k)
  }

  // ----- paths

  /** A path with one more word. */
  lemma {:induction false} Extend(text: seq<int>, dict: seq<seq<Word>>, path: seq<Step>, i: int, k: int)
    requires ValidMatches(text, dict) && 0 <= i < |text| && 0 <= k < |Words(text, dict, i)|
    requires IsPath(text, dict, path, i)
    ensures var w := Words(text, dict, i)[k];
            var longer := path + [Step(i, w)];
            && IsPath(text, dict, longer, i + w.length) && Cost(longer) == Cost(path) + w.cost
            && Ends(longer) == Ends(path) + [i + w.length]
  {
    hide Words, ValidMatches;
    var w := Words(text, dict, i)[k];
    assert (path + [Step(i, w)])[..|path|] == path;
  }

  lemma {:induction false} LastWord(text: seq<int>, dict: seq<seq<Word>>, path: seq<Step>, j: int)
    returns (p: int, k: int)
    requires ValidMatches(text, dict) && IsPath(text, dict, path, j) && path != []
    ensures 0 <= p < j <= |text| && 0 <= k < |Words(text, dict, p)|
    ensures path[|path| - 1] == Step(p, Words(text, dict, p)[k])
    ensures p + Words(text, dict, p)[k].length == j && 0 <= Words(text, dict, p)[k].cost
    ensures IsPath(text, dict, path[..|path| - 1], p)
    ensures Cost(path) == Cost(path[..|path| - 1]) + Words(text, dict, p)[k].cost
  {
    hide Words, ValidMatches;
    var s := path[|path| - 1];
    p := s.from;
    k :| 0 <= k < |Words(text, dict, p)| && Words(text, dict, p)[k] == s.word;
    WordsFit(text, dict, p, k);
  }

  lemma {:induction false} PathBounds(text: seq<int>, dict: seq<seq<Word>>, path: seq<Step>, j: int)
    requires ValidMatches(text, dict) && IsPath(text, dict, path, j)
    ensures 0 <= j <= |text| && 0 <= Cost(path) && (path == [] <==> j == 0)
  {
    hide Words, ValidMatches;
    if path != [] {
      var p, k := LastWord(text, dict, path, j);
      PathBounds(text, dict, path[..|path| - 1], p);
    }
  }

  /** Where a position can be reached, there is a cheapest way to it. */
  lemma {:induction false} CheapestExists(text: seq<int>, dict: seq<seq<Word>>, path: seq<Step>, j: int)
    returns (cheapest: seq<Step>)
    requires ValidMatches(text, dict) && IsPath(text, dict, path, j)
    ensures CheapestTo(text, dict, cheapest, j) && Cost(cheapest) <= Cost(path)
    decreases Cost(path)
  {
    hide IsPath, ValidMatches;
    if CheapestTo(text, dict, path, j) {
      cheapest := path;
    } else {
      var other :| IsPath(text, dict, other, j) && Cost(other) < Cost(path);
      PathBounds(text, dict, other, j);
      cheapest := CheapestExists(text, dict, other, j);
    }
  }

  lemma {:induction false} CheapestReach(text: seq<int>, dict: seq<seq<Word>>, path: seq<Step>, j: int)
    requires ValidMatches(text, dict) && 0 <= j <= |text| && IsPath(text, dict, path, j)
    ensures Reach(text, dict, j)
  {
    ReachByPath(text, dict, path, j);
  }

  /** The chain of previous positions names the place where the last word starts. */
  lemma {:induction false} LastFrom(text: seq<int>, dict: seq<seq<Word>>, prev: seq<int>, path: seq<Step>, j: int)
    requires ValidMatches(text, dict) && IsPath(text, dict, path, j) && 0 < j < |prev| && 0 <= prev[j] < j
    requires Ends(path) == Chain(prev, j)
    ensures path != [] && path[|path| - 1].from == prev[j] && Ends(path[..|path| - 1]) == Chain(prev, prev[j])
  {
    hide Words, ValidMatches;
    PathBounds(text, dict, path, j);
    var front := path[..|path| - 1];
    var p, k := LastWord(text, dict, path, j);
    assert Ends(path) == Ends(front) + [j];
    assert Ends(front) == Ends(path)[..|path| - 1] == Chain(prev, prev[j]);
    EndOfPath(text, dict, front, p);
    EndOfChain(prev, prev[j]);
  }

  lemma {:induction false} EndOfPath(text: seq<int>, dict: seq<seq<Word>>, path: seq<Step>, j: int)
    requires ValidMatches(text, dict) && IsPath(text, dict, path, j)
    ensures j == if path == [] then 0 else Ends(path)[|path| - 1]
  {
    hide Words, ValidMatches;
  }

  lemma EndOfChain(prev: seq<int>, j: int)
    requires 0 <= j < |prev|
    ensures j == if Chain(prev, j) == [] then 0 else Chain(prev, j)[|Chain(prev, j)| - 1]
  {
  }

  // ----- entries that are right up to a position

  /** The finite entries below `i` are those of the positions that can be reached. */
  ghost predicate Sees(text: seq<int>, dict: seq<seq<Word>>, best: seq<int>, i: int)
    requires ValidMatches(text, dict) && 0 <= i <= |text| && i <= |best|
  {
    forall q :: 0 <= q < i ==> (best[q] != UINT32_MAX <==> Reach(text, dict, q))
  }

  /** Then the words that are compared are the candidate words. */
  lemma ComparedWords(text: seq<int>, dict: seq<seq<Word>>, best: seq<int>, i: int)
    requires ValidMatches(text, dict) && 0 <= i < |text| && i <= |best| && Sees(text, dict, best, i)
    ensures Compared(text, dict, best, i) == Words(text, dict, i)
  {
    KatakanaAgrees(text, dict, best, i);
    hide Reach, PrevKatakana, AfterKatakana;
  }

  lemma {:induction false} KatakanaAgrees(text: seq<int>, dict: seq<seq<Word>>, best: seq<int>, i: int)
    requires ValidMatches(text, dict) && 0 <= i <= |text| && i <= |best| && Sees(text, dict, best, i)
    ensures AfterKatakana(text, best, i) == PrevKatakana(text, dict, i)
  {
    hide Reach, ValidMatches;
    if i > 0 { KatakanaAgrees(text, dict, best, i - 1); }
  }

  ghost predicate RightBelow(text: seq<int>, dict: seq<seq<Word>>, best: seq<int>, prev: seq<int>, i: int)
    requires ValidMatches(text, dict) && Tables(best, prev, |text|)
  {
    forall j :: 0 <= j < i && j <= |text| ==> RightAt(text, dict, best, prev, j)
  }

  lemma RightSees(text: seq<int>, dict: seq<seq<Word>>, best: seq<int>, prev: seq<int>, i: int, p: int)
    requires ValidMatches(text, dict) && Tables(best, prev, |text|) && RightBelow(text, dict, best, prev, i)
    requires 0 <= p < |text| && p <= i
    ensures Compared(text, dict, best, p) == Words(text, dict, p)
  {
    hide Reach, ValidMatches, CheapestTo, Compared, Words;
    forall q | 0 <= q < p ensures best[q] != UINT32_MAX <==> Reach(text, dict, q) {
      assert RightAt(text, dict, best, prev, q);
    }
    ComparedWords(text, dict, best, p);
  }

  /** A right finite entry is the cost of a cheapest path. */
  lemma RightPath(text: seq<int>, dict: seq<seq<Word>>, best: seq<int>, prev: seq<int>, i: int, p: int)
    returns (path: seq<Step>)
    requires ValidMatches(text, dict) && Tables(best, prev, |text|) && RightBelow(text, dict, best, prev, i)
    requires 0 <= p < i && p <= |text| && best[p] != UINT32_MAX
    ensures CheapestTo(text, dict, path, p) && Spelled(best, prev, path, p) && Reach(text, dict, p)
  {
    hide Reach, ValidMatches, CheapestTo;
    assert RightAt(text, dict, best, prev, p);
    path :| CheapestTo(text, dict, path, p) && Spelled(best, prev, path, p);
  }

  /** The last word of a cheapest path extends a right entry without wrapping around. */
  lemma {:induction false} CheapestSplits(text: seq<int>, dict: seq<seq<Word>>, best: seq<int>, prev: seq<int>,
                                          path: seq<Step>, j: int)
    returns (p: int, k: int)
    requires ValidMatches(text, dict) && Tables(best, prev, |text|) && RightBelow(text, dict, best, prev, j)
    requires CheapestTo(text, dict, path, j) && 0 < j <= |text|
    ensures 0 <= p < j && 0 <= k < |Words(text, dict, p)| && path != [] && path[|path| - 1].from == p
    ensures p + Words(text, dict, p)[k].length == j && 0 <= Words(text, dict, p)[k].cost
    ensures best[p] != UINT32_MAX && best[p] + Words(text, dict, p)[k].cost == Cost(path)
  {
    hide Words, ValidMatches, Reach, Compared;
    PathBounds(text, dict, path, j);
    p, k := LastWord(text, dict, path, j);
    CheapestReach(text, dict, path[..|path| - 1], p);
    assert RightAt(text, dict, best, prev, p);
    var front := RightPath(text, dict, best, prev, j, p);
    Extend(text, dict, front, p, k);
  }

  lemma ProgressTables(text: seq<int>, dict: seq<seq<Word>>, best: seq<int>, prev: seq<int>)
    requires ValidMatches(text, dict) && Progress(text, dict, best, prev, |text|, 0)
    ensures |dict| == |text| && Tables(best, prev, |text|)
  {
    hide Compared, Attained, Relaxed;
  }

  /** What comparing a word at `p` has led to. */
  lemma SumAtLeast(text: seq<int>, dict: seq<seq<Word>>, best: seq<int>, prev: seq<int>, p: int, k: int)
    requires ValidMatches(text, dict) && Progress(text, dict, best, prev, |text|, 0)
    requires 0 <= p < |text| && best[p] != UINT32_MAX && 0 <= k < |Compared(text, dict, best, p)|
    ensures var w := Compared(text, dict, best, p)[k];
            var j, sum := p + w.length, Wrapped(best[p] + w.cost);
            1 <= w.length && j <= |text| && best[j] <= sum && (best[j] == sum != UINT32_MAX ==> prev[j] <= p)
  {
    hide ValidMatches, Attained, Compared, Wrapped;
    ProgressTables(text, dict, best, prev);
    ComparedFits(text, dict, best, p, k);
    assert Relaxed(text, dict, best, prev, p, k);
  }

  /** What a finite entry was computed from. */
  lemma SourceWord(text: seq<int>, dict: seq<seq<Word>>, best: seq<int>, prev: seq<int>, j: int) returns (k: int)
    requires ValidMatches(text, dict) && Progress(text, dict, best, prev, |text|, 0)
    requires 0 < j <= |text| && best[j] != UINT32_MAX
    ensures 0 <= prev[j] < j && best[prev[j]] != UINT32_MAX && 0 <= k < |Compared(text, dict, best, prev[j])|
    ensures Gives(text, dict, best, prev[j], k, j)
  {
    hide Compared, Wrapped, Relaxed;
    assert Attained(text, dict, best, prev, j);
    k :| 0 <= k < |Compared(text, dict, best, prev[j])| && Gives(text, dict, best, prev[j], k, j);
  }

  /** An entry is at most the least cost, if that fits, and the first position that gives it counts. */
  lemma {:induction false} EntryAtMost(text: seq<int>, dict: seq<seq<Word>>, best: seq<int>, prev: seq<int>,
                                       path: seq<Step>, j: int)
    requires ValidMatches(text, dict) && Progress(text, dict, best, prev, |text|, 0)
    requires RightBelow(text, dict, best, prev, j) && 0 < j <= |text|
    requires CheapestTo(text, dict, path, j) && Cost(path) < UINT32_MAX
    ensures best[j] <= Cost(path) && path != []
    ensures best[j] == Cost(path) ==> prev[j] <= path[|path| - 1].from
  {
    hide Words, ValidMatches, Reach, Compared, CheapestTo, RightBelow, Progress;
    ProgressTables(text, dict, best, prev);
    var p, k := CheapestSplits(text, dict, best, prev, path, j);
    RightSees(text, dict, best, prev, j, p);
    SumAtLeast(text, dict, best, prev, p, k);
  }

  /** Where no sum does harm, the least costs fit. */
  lemma CheapestFits(text: seq<int>, dict: seq<seq<Word>>, best: seq<int>, prev: seq<int>, j: int)
    returns (path: seq<Step>)
    requires ValidMatches(text, dict) && Tables(best, prev, |text|) && Harmless(text, dict)
    requires RightBelow(text, dict, best, prev, j) && 0 < j <= |text| && Reach(text, dict, j)
    ensures CheapestTo(text, dict, path, j) && Cost(path) < UINT32_MAX
  {
    hide Words, ValidMatches, Reach, CheapestTo, RightBelow, Wrapped;
    var any := PathByReach(text, dict, j);
    PathBounds(text, dict, any, j);
    var p, k := LastWord(text, dict, any, j);
    CheapestReach(text, dict, any[..|any| - 1], p);
    FiniteBelow(text, dict, best, prev, j, p);
    var front := RightPath(text, dict, best, prev, j, p);
    assert HarmlessSum(text, dict, Cost(front), p, k);
    var sum := Wrapped(Cost(front) + Words(text, dict, p)[k].cost);
    path :| CheapestTo(text, dict, path, j) && NotUndercut(path, sum, p);
  }

  lemma FiniteBelow(text: seq<int>, dict: seq<seq<Word>>, best: seq<int>, prev: seq<int>, i: int, p: int)
    requires ValidMatches(text, dict) && Tables(best, prev, |text|) && RightBelow(text, dict, best, prev, i)
    requires 0 <= p < i && p <= |text| && Reach(text, dict, p)
    ensures best[p] != UINT32_MAX
  {
    hide Reach, ValidMatches, CheapestTo;
    assert RightAt(text, dict, best, prev, p);
  }

  /** The word and the cheapest path that a finite entry was computed from. */
  lemma EntrySource(text: seq<int>, dict: seq<seq<Word>>, best: seq<int>, prev: seq<int>, j: int)
    returns (front: seq<Step>, k: int)
    requires ValidMatches(text, dict) && Progress(text, dict, best, prev, |text|, 0)
    requires RightBelow(text, dict, best, prev, j) && 0 < j <= |text| && best[j] != UINT32_MAX
    ensures 0 <= prev[j] < j && 0 <= k < |Words(text, dict, prev[j])|
    ensures prev[j] + Words(text, dict, prev[j])[k].length == j
    ensures CheapestTo(text, dict, front, prev[j]) && Spelled(best, prev, front, prev[j])
    ensures Wrapped(best[prev[j]] + Words(text, dict, prev[j])[k].cost) == best[j]
  {
    hide Words, ValidMatches, Reach, Compared, CheapestTo, RightBelow, Wrapped, Progress;
    ProgressTables(text, dict, best, prev);
    k := SourceWord(text, dict, best, prev, j);
    var p := prev[j];
    RightSees(text, dict, best, prev, j, p);
    front := RightPath(text, dict, best, prev, j, p);
  }

  /** Where no sum does harm, the next entry is right, too. */
  lemma NextRight(text: seq<int>, dict: seq<seq<Word>>, best: seq<int>, prev: seq<int>, j: int)
    requires ValidMatches(text, dict) && Progress(text, dict, best, prev, |text|, 0) && Harmless(text, dict)
    requires RightBelow(text, dict, best, prev, j) && 0 < j <= |text|
    ensures RightAt(text, dict, best, prev, j)
  {
    hide Words, ValidMatches, Reach, CheapestTo, RightBelow, Wrapped, Spelled, Progress;
    ProgressTables(text, dict, best, prev);
    if Reach(text, dict, j) {
      var path := CheapestFits(text, dict, best, prev, j);
      EntryAtMost(text, dict, best, prev, path, j);
      var front, k := EntrySource(text, dict, best, prev, j);
      SourceRight(text, dict, best, prev, j, path, front, k);
    } else if best[j] != UINT32_MAX {
      var front, k := EntrySource(text, dict, best, prev, j);
      Extend(text, dict, front, prev[j], k) by { CheapestIsPath(text, dict, front, prev[j]); }
      ReachByPath(text, dict, front + [Step(prev[j], Words(text, dict, prev[j])[k])], j);
    }
  }

  lemma {:induction false} CheapestIsPath(text: seq<int>, dict: seq<seq<Word>>, path: seq<Step>, j: int)
    requires ValidMatches(text, dict) && CheapestTo(text, dict, path, j)
    ensures IsPath(text, dict, path, j)
  {
  }

  lemma {:induction false} SameCost(text: seq<int>, dict: seq<seq<Word>>, p: seq<Step>, q: seq<Step>, j: int)
    requires ValidMatches(text, dict) && CheapestTo(text, dict, p, j) && IsPath(text, dict, q, j)
    ensures Cost(p) <= Cost(q) && (CheapestTo(text, dict, q, j) <==> Cost(p) == Cost(q))
  {
    hide IsPath, ValidMatches;
  }

  lemma {:induction false} SourceRight(text: seq<int>, dict: seq<seq<Word>>, best: seq<int>, prev: seq<int>, j: int,
                    path: seq<Step>, front: seq<Step>, k: int)
    requires ValidMatches(text, dict) && Progress(text, dict, best, prev, |text|, 0) && Harmless(text, dict)
    requires RightBelow(text, dict, best, prev, j) && 0 < j <= |text| && best[j] != UINT32_MAX
    requires CheapestTo(text, dict, path, j) && best[j] <= Cost(path)
    requires 0 <= prev[j] < j && 0 <= k < |Words(text, dict, prev[j])|
    requires prev[j] + Words(text, dict, prev[j])[k].length == j
    requires CheapestTo(text, dict, front, prev[j]) && Spelled(best, prev, front, prev[j])
    requires Wrapped(best[prev[j]] + Words(text, dict, prev[j])[k].cost) == best[j]
    ensures exists path' :: CheapestTo(text, dict, path', j) && Spelled(best, prev, path', j)
  {
    hide Words, ValidMatches, Reach, CheapestTo, RightBelow, Wrapped, Compared, IsPath, Progress;
    ProgressTables(text, dict, best, prev);
    var p := prev[j];
    assert HarmlessSum(text, dict, Cost(front), p, k);
    var other :| CheapestTo(text, dict, other, j) && NotUndercut(other, best[j], p);
    CheapestIsPath(text, dict, other, j);
    SameCost(text, dict, path, other, j);
    EntryAtMost(text, dict, best, prev, other, j);
    var q, k' := CheapestSplits(text, dict, best, prev, other, j);
    CheapestIsPath(text, dict, front, p);
    Extend(text, dict, front, p, k');
    var right := front + [Step(p, Words(text, dict, p)[k'])];
    SameCost(text, dict, other, right, j);
    assert Spelled(best, prev, right, j);
  }

  lemma FirstRight(text: seq<int>, dict: seq<seq<Word>>, best: seq<int>, prev: seq<int>)
    requires ValidMatches(text, dict) && Tables(best, prev, |text|)
    ensures RightAt(text, dict, best, prev, 0)
  {
    hide Words, ValidMatches;
    var none: seq<Step> := [];
    forall other | IsPath(text, dict, other, 0) ensures Cost(none) <= Cost(other) { PathBounds(text, dict, other, 0); }
    assert CheapestTo(text, dict, none, 0) && Spelled(best, prev, none, 0);
  }

  lemma {:induction false} AllRight(text: seq<int>, dict: seq<seq<Word>>, best: seq<int>, prev: seq<int>, i: int)
    requires ValidMatches(text, dict) && Progress(text, dict, best, prev, |text|, 0) && Harmless(text, dict)
    requires 0 <= i <= |text| + 1
    ensures RightBelow(text, dict, best, prev, i)
  {
    hide Words, ValidMatches, Harmless, RightAt, Attained, Relaxed;
    if i > 0 {
      AllRight(text, dict, best, prev, i - 1);
      if i == 1 { FirstRight(text, dict, best, prev); } else { NextRight(text, dict, best, prev, i - 1); }
    }
  }

  /** Where the tables are right, no sum did harm. */
  lemma {:induction false} RightHarmless(text: seq<int>, dict: seq<seq<Word>>, best: seq<int>, prev: seq<int>,
                      path: seq<Step>, i: int, k: int)
    requires ValidMatches(text, dict) && Progress(text, dict, best, prev, |text|, 0) && Right(text, dict, best, prev)
    requires 0 <= i < |text| && 0 <= k < |Words(text, dict, i)| && CheapestTo(text, dict, path, i)
    ensures HarmlessSum(text, dict, Cost(path), i, k)
  {
    hide Words, ValidMatches, Reach, CheapestTo, Wrapped, Compared, IsPath, Chain, Progress, RightAt;
    ProgressTables(text, dict, best, prev);
    var n := |text| + 1;
    assert RightBelow(text, dict, best, prev, n);
    CheapestIsPath(text, dict, path, i);
    CheapestReach(text, dict, path, i);
    FiniteBelow(text, dict, best, prev, n, i);
    var mine := RightPath(text, dict, best, prev, n, i);
    SameCost(text, dict, mine, path, i);
    WordsFit(text, dict, i, k);
    var j := i + Words(text, dict, i)[k].length;
    Extend(text, dict, path, i, k);
    CheapestReach(text, dict, path + [Step(i, Words(text, dict, i)[k])], j);
    FiniteBelow(text, dict, best, prev, n, j);
    var next := RightPath(text, dict, best, prev, n, j);
    RightSees(text, dict, best, prev, n, i);
    SumAtLeast(text, dict, best, prev, i, k);
    PrevOf(text, dict, best, prev, next, j);
    assert NotUndercut(next, Wrapped(Cost(path) + Words(text, dict, i)[k].cost), i);
  }

  lemma {:induction false} PrevOf(text: seq<int>, dict: seq<seq<Word>>, best: seq<int>, prev: seq<int>, path: seq<Step>,
                                  j: int)
    requires ValidMatches(text, dict) && Progress(text, dict, best, prev, |text|, 0) && 0 < j <= |text|
    requires best[j] != UINT32_MAX && CheapestTo(text, dict, path, j) && Spelled(best, prev, path, j)
    ensures path != [] && path[|path| - 1].from == prev[j]
  {
    hide Words, ValidMatches, Compared, IsPath, Progress;
    ProgressTables(text, dict, best, prev);
    var k := SourceWord(text, dict, best, prev, j);
    LastFrom(text, dict, prev, path, j);
  }

  /** The tables are right exactly if no sum does harm. */
  lemma TablesRight(text: seq<int>, dict: seq<seq<Word>>, best: seq<int>, prev: seq<int>)
    requires ValidMatches(text, dict) && Progress(text, dict, best, prev, |text|, 0)
    ensures Right(text, dict, best, prev) <==> Harmless(text, dict)
  {
    hide Words, ValidMatches, RightAt, HarmlessSum, CheapestTo, Attained, Relaxed;
    if Harmless(text, dict) { AllRight(text, dict, best, prev, |text| + 1); }
    if Right(text, dict, best, prev) {
      forall path, i, k | 0 <= i < |text| && 0 <= k < |Words(text, dict, i)| && CheapestTo(text, dict, path, i)
        ensures HarmlessSum(text, dict, Cost(path), i, k)
      {
        RightHarmless(text, dict, best, prev, path, i, k);
      }
    }
  }

  // ----- when no sum does harm

  /** No segmentation of the text or of a beginning of it costs as much as the unsigned maximum. */
  ghost predicate NoOverflow(text: seq<int>, dict: seq<seq<Word>>)
    requires ValidMatches(text, dict)
  {
    forall path, j :: IsPath(text, dict, path, j) ==> Cost(path) < UINT32_MAX
  }

  /** Without overflow, no sum does harm. */
  lemma NoOverflowHarmless(text: seq<int>, dict: seq<seq<Word>>)
    requires ValidMatches(text, dict) && NoOverflow(text, dict)
    ensures Harmless(text, dict)
  {
    hide Words, ValidMatches, IsPath, NoOverflow, HarmlessSum;
    forall path, i, k | 0 <= i < |text| && 0 <= k < |Words(text, dict, i)| && CheapestTo(text, dict, path, i)
      ensures HarmlessSum(text, dict, Cost(path), i, k)
    {
      SumHarmless(text, dict, path, i, k);
    }
  }

  lemma {:induction false} SumHarmless(text: seq<int>, dict: seq<seq<Word>>, path: seq<Step>, i: int, k: int)
    requires ValidMatches(text, dict) && NoOverflow(text, dict)
    requires 0 <= i < |text| && 0 <= k < |Words(text, dict, i)| && IsPath(text, dict, path, i)
    ensures HarmlessSum(text, dict, Cost(path), i, k)
  {
    hide Words, ValidMatches, IsPath;
    Extend(text, dict, path, i, k);
    var w := Words(text, dict, i)[k];
    var longer := path + [Step(i, w)];
    PathBounds(text, dict, longer, i + w.length);
    var cheapest := CheapestExists(text, dict, longer, i + w.length);
    assert Wrapped(Cost(path) + w.cost) == Cost(longer) && longer[|longer| - 1] == Step(i, w);
    hide Wrapped, Cost, CheapestTo;
    if Cost(cheapest) == Cost(longer) {
      SameCost(text, dict, cheapest, longer, i + w.length);
      assert NotUndercut(longer, Wrapped(Cost(path) + w.cost), i);
    } else {
      assert NotUndercut(cheapest, Wrapped(Cost(path) + w.cost), i);
    }
  }

  /** No word costs more than `most`, and the text is short enough for every sum of such costs. */
  ghost predicate CostsFit(text: seq<int>, dict: seq<seq<Word>>, most: int) {
    && MAX_SNLP <= most && 8192 <= most && |text| * most < UINT32_MAX
    && forall i, k :: 0 <= i < |dict| && 0 <= k < |dict[i]| ==> dict[i][k].cost <= most
  }

  /** Short text with bounded costs does not overflow. */
  lemma CostsFitNoOverflow(text: seq<int>, dict: seq<seq<Word>>, most: int)
    requires ValidMatches(text, dict) && CostsFit(text, dict, most)
    ensures NoOverflow(text, dict)
  {
    hide Words, ValidMatches, IsPath;
    forall path, j | IsPath(text, dict, path, j) ensures Cost(path) < UINT32_MAX {
      PathBounds(text, dict, path, j);
      CostAtMost(text, dict, most, path, j);
      assert |text| * most == j * most + (|text| - j) * most;
    }
  }

  lemma {:induction false} CostAtMost(text: seq<int>, dict: seq<seq<Word>>, most: int, path: seq<Step>, j: int)
    requires ValidMatches(text, dict) && CostsFit(text, dict, most) && IsPath(text, dict, path, j)
    ensures Cost(path) <= j * most
  {
    hide Words, ValidMatches, CostsFit, IsPath;
    PathBounds(text, dict, path, j);
    if path != [] {
      var p, k := LastWord(text, dict, path, j);
      CostBound(text, dict, most, p, k);
      CostAtMost(text, dict, most, path[..|path| - 1], p);
      WordsFit(text, dict, p, k);
      OneMore(Cost(path[..|path| - 1]), Words(text, dict, p)[k], p, most);
    }
  }

  lemma OneMore(c: int, w: Word, p: int, most: int)
    requires c <= p * most && w.cost <= most && 1 <= w.length && 0 <= most
    ensures c + w.cost <= (p + w.length) * most
  {
    assert (p + w.length) * most == p * most + most + (w.length - 1) * most;
  }

  lemma CostBound(text: seq<int>, dict: seq<seq<Word>>, most: int, i: int, k: int)
    requires ValidMatches(text, dict) && CostsFit(text, dict, most) && 0 <= i < |text|
    requires 0 <= k < |Words(text, dict, i)|
    ensures 8192 <= most && Words(text, dict, i)[k].cost <= most
  {
  }

  // ----- the whole text

  ghost predicate Segmentable(text: seq<int>, dict: seq<seq<Word>>)
    requires ValidMatches(text, dict)
  {
    exists path :: IsPath(text, dict, path, |text|)
  }

  /**
   Where no sum does harm, the last entry is the least cost of a segmentation of the whole text, and the chain of
   previous positions spells out a segmentation of that cost; the entry is the unsigned maximum exactly if there
   is none. Text without Hangul always has one.
   */
  lemma MinimumCost(text: seq<int>, dict: seq<seq<Word>>, best: seq<int>, prev: seq<int>)
    requires ValidMatches(text, dict) && Progress(text, dict, best, prev, |text|, 0) && Harmless(text, dict)
    ensures best[|text|] == UINT32_MAX <==> !Segmentable(text, dict)
    ensures best[|text|] != UINT32_MAX ==>
              exists path :: CheapestTo(text, dict, path, |text|) && Spelled(best, prev, path, |text|)
    ensures (forall c :: c in text ==> !IsHangul(c)) ==> Segmentable(text, dict)
  {
    hide Words, ValidMatches, Reach, CheapestTo, Attained, Relaxed, Harmless, IsPath;
    var n := |text|;
    AllRight(text, dict, best, prev, n + 1);
    assert RightAt(text, dict, best, prev, n);
    if Segmentable(text, dict) {
      var path :| IsPath(text, dict, path, n);
      ReachByPath(text, dict, path, n);
    }
    if Reach(text, dict, n) { var path := PathByReach(text, dict, n); }
    if forall c :: c in text ==> !IsHangul(c) { AlwaysReached(text, dict, n); }
  }

  // ----- a text where a sum does harm

  /** Three words of one character with costs that wrap around when they are added, or one word of three. */
  function WrappingText(): seq<int> { [0x4e00, 0x4e01, 0x4e02] }

  function WrappingWords(): seq<seq<Word>> {
    [[Word(1, 0x7fff_ffff), Word(3, 100)], [Word(1, 0x7fff_ffff)], [Word(1, 5)]]
  }

  lemma WrappingCandidates(i: int)
    requires 0 <= i < 3
    ensures ValidMatches(WrappingText(), WrappingWords())
    ensures Words(WrappingText(), WrappingWords(), i) == WrappingWords()[i]
  {
  }

  lemma {:induction false} WrappingPaths(path: seq<Step>, j: int)
    requires ValidMatches(WrappingText(), WrappingWords()) && IsPath(WrappingText(), WrappingWords(), path, j)
    ensures j == 1 ==> Cost(path) == 0x7fff_ffff
    ensures j == 2 ==> Cost(path) == 0xffff_fffe
    ensures j == 3 ==> Cost(path) >= 100
  {
    PathBounds(WrappingText(), WrappingWords(), path, j);
    if path != [] {
      var p, k := LastWord(WrappingText(), WrappingWords(), path, j);
      WrappingPaths(path[..|path| - 1], p);
      PathBounds(WrappingText(), WrappingWords(), path[..|path| - 1], p);
      WrappingCandidates(p);
    }
  }

  lemma WrappingCheapest() returns (two: seq<Step>)
    ensures ValidMatches(WrappingText(), WrappingWords())
    ensures CheapestTo(WrappingText(), WrappingWords(), two, 2) && Cost(two) == 0xffff_fffe
  {
    var text, dict := WrappingText(), WrappingWords();
    WrappingCandidates(0);
    WrappingCandidates(1);
    assert Words(text, dict, 0)[0] == Words(text, dict, 1)[0] == Word(1, 0x7fff_ffff);
    hide Words, IsPath, ValidMatches, WrappingText, WrappingWords;
    var none: seq<Step> := [];
    assert IsPath(text, dict, none, 0) by { NoSteps(text, dict); }
    Extend(text, dict, none, 0, 0);
    var one := none + [Step(0, Words(text, dict, 0)[0])];
    Extend(text, dict, one, 1, 0);
    two := one + [Step(1, Words(text, dict, 1)[0])];
    forall other | IsPath(text, dict, other, 2) ensures Cost(two) <= Cost(other) { WrappingPaths(other, 2); }
  }

  lemma NoSteps(text: seq<int>, dict: seq<seq<Word>>)
    requires ValidMatches(text, dict)
    ensures IsPath(text, dict, [], 0)
  {
  }

  lemma {:induction false} SumUndercuts(text: seq<int>, dict: seq<seq<Word>>)
    requires ValidMatches(text, dict) && |text| == 3 && Words(text, dict, 2) == [Word(1, 5)]
    requires forall path :: CheapestTo(text, dict, path, 3) ==> Cost(path) >= 100
    ensures !HarmlessSum(text, dict, 0xffff_fffe, 2, 0)
  {
    hide Words, ValidMatches, CheapestTo, Cost;
    assert Wrapped(0xffff_fffe + 5) == 3;
  }

  lemma WrappingSum()
    ensures ValidMatches(WrappingText(), WrappingWords()) && |WrappingText()| == 3
    ensures |Words(WrappingText(), WrappingWords(), 2)| == 1
    ensures !HarmlessSum(WrappingText(), WrappingWords(), 0xffff_fffe, 2, 0)
  {
    var text, dict := WrappingText(), WrappingWords();
    WrappingCandidates(2);
    assert |text| == 3 && Words(text, dict, 2) == [Word(1, 5)];
    hide Words, ValidMatches, WrappingText, WrappingWords, CheapestTo;
    forall path | CheapestTo(text, dict, path, 3) ensures Cost(path) >= 100 {
      CheapestIsPath(text, dict, path, 3);
      WrappingPaths(path, 3);
    }
    SumUndercuts(text, dict);
  }

  /** With costs of 31 bits each, a sum can wrap around and do harm. */
  lemma WrappingHarms()
    ensures ValidMatches(WrappingText(), WrappingWords()) && !Harmless(WrappingText(), WrappingWords())
  {
    hide Words, CheapestTo, ValidMatches, WrappingText, WrappingWords, Cost, HarmlessSum;
    var two := WrappingCheapest();
    WrappingSum();
  }
}
