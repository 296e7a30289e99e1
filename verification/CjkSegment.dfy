/**
 Segmentation of Chinese and Japanese text by dynamic programming: from every reachable position, the
 dictionary words, a fallback one-character word and a Katakana run lead to later positions, and the
 cheapest way to each position is kept.
 */
module CjkSegment {

  /** A candidate word: its length in code points and its cost. */
  datatype Word = Word(length: int, cost: int)

  const MAX_SNLP := 255
  const UINT32_MAX := 0xffff_ffff
  const MAX_KATAKANA_LENGTH := 8
  const MAX_KATAKANA_GROUP_LENGTH := 20

  function KatakanaCost(length: int): (cost: int)
    requires 0 <= length
    ensures 0 <= cost <= 8192
  {
    if length > MAX_KATAKANA_LENGTH then 8192
    else [8192, 984, 408, 240, 204, 252, 300, 372, 480][length]
  }

  predicate IsKatakana(c: int) {
    (0x30A1 <= c <= 0x30FE && c != 0x30FB) || 0xFF66 <= c <= 0xFF9f
  }

  predicate IsHangul(c: int) { 0xac00 <= c <= 0xd7a3 }

  /** What the dictionary finds at each position: words within the text. */
  ghost predicate ValidMatches(text: seq<int>, dict: seq<seq<Word>>) {
    && |dict| == |text|
    && forall i, k :: 0 <= i < |dict| && 0 <= k < |dict[i]| ==>
         1 <= dict[i][k].length && i + dict[i][k].length <= |text| && 0 <= dict[i][k].cost
  }

  /** Dictionary words at `i`; without a one-character word there, a costly one is added, except for Hangul. */
  function BaseWords(text: seq<int>, dict: seq<seq<Word>>, i: int): seq<Word>
    requires |dict| == |text| && 0 <= i < |text|
  {
    if (dict[i] == [] || dict[i][0].length != 1) && !IsHangul(text[i]) then dict[i] + [Word(1, MAX_SNLP)] else dict[i]
  }

  /** Length of the Katakana run from `i`, counted up to the group limit. */
  function RunLength(text: seq<int>, i: int, count: int): (n: int)
    requires 0 <= i && 1 <= count <= MAX_KATAKANA_GROUP_LENGTH && i + count <= |text|
    ensures count <= n <= MAX_KATAKANA_GROUP_LENGTH && i + n <= |text|
    decreases MAX_KATAKANA_GROUP_LENGTH - count
  {
    if i + count < |text| && count < MAX_KATAKANA_GROUP_LENGTH && IsKatakana(text[i + count])
    then RunLength(text, i, count + 1) else count
  }

  function KatakanaWords(text: seq<int>, i: int): seq<Word>
    requires 0 <= i < |text|
  {
    var n := RunLength(text, i, 1);
    if n < MAX_KATAKANA_GROUP_LENGTH then [Word(n, KatakanaCost(n))] else []
  }

  // ----- the graph of candidate words

  /** Some segmentation ends at `j`. */
  ghost predicate Reach(text: seq<int>, dict: seq<seq<Word>>, j: int)
    requires ValidMatches(text, dict) && 0 <= j <= |text|
    decreases j, 2
  {
    j == 0 || exists i, k :: 0 <= i < j && 0 <= k < |Words(text, dict, i)| && ReachStep(text, dict, i, k, j)
  }

  ghost predicate ReachStep(text: seq<int>, dict: seq<seq<Word>>, i: int, k: int, j: int)
    requires ValidMatches(text, dict) && 0 <= i < j <= |text| && 0 <= k < |Words(text, dict, i)|
    decreases j, 1
  {
    Reach(text, dict, i) && i + Words(text, dict, i)[k].length == j
  }

  /** Whether the last position before `i` that a segmentation reaches is a Katakana character. */
  ghost predicate PrevKatakana(text: seq<int>, dict: seq<seq<Word>>, i: int)
    requires ValidMatches(text, dict) && 0 <= i <= |text|
    decreases i, 0
  {
    i > 0 && if Reach(text, dict, i - 1) then IsKatakana(text[i - 1]) else PrevKatakana(text, dict, i - 1)
  }

  /** All candidate words at `i`. */
  ghost function Words(text: seq<int>, dict: seq<seq<Word>>, i: int): seq<Word>
    requires ValidMatches(text, dict) && 0 <= i < |text|
    decreases i, 1
  {
    BaseWords(text, dict, i) +
      if IsKatakana(text[i]) && !PrevKatakana(text, dict, i) then KatakanaWords(text, i) else []
  }

  lemma WordsFit(text: seq<int>, dict: seq<seq<Word>>, i: int, k: int)
    requires ValidMatches(text, dict) && 0 <= i < |text| && 0 <= k < |Words(text, dict, i)|
    ensures var w := Words(text, dict, i)[k]; 1 <= w.length && i + w.length <= |text| && 0 <= w.cost
  {
  }

  /** One word of a segmentation. */
  datatype Step = Step(from: int, word: Word)

  /** A sequence of candidate words from the start of the text to position `j`. */
  ghost predicate IsPath(text: seq<int>, dict: seq<seq<Word>>, path: seq<Step>, j: int)
    requires ValidMatches(text, dict)
  {
    if path == [] then j == 0
    else
      var s := path[|path| - 1];
      && 0 <= s.from < |text| && s.word in Words(text, dict, s.from) && s.from + s.word.length == j
      && IsPath(text, dict, path[..|path| - 1], s.from)
  }

  function Cost(path: seq<Step>): int {
    if path == [] then 0 else Cost(path[..|path| - 1]) + path[|path| - 1].word.cost
  }

  /** The positions after each word. */
  function Ends(path: seq<Step>): seq<int> {
    seq(|path|, k requires 0 <= k < |path| => path[k].from + path[k].word.length)
  }

  /** The positions that the chain of previous positions from `j` spells out, first to last. */
  function Chain(prev: seq<int>, j: int): seq<int>
    requires j < |prev|
    decreases j
  {
    if j <= 0 then [] else if prev[j] >= j then [j] else Chain(prev, prev[j]) + [j]
  }

  // ----- the tables

  /** Unsigned 32-bit arithmetic. */
  function Wrapped(x: int): int { x % 0x1_0000_0000 }

  /** Whether the last position before `i` with a finite entry is a Katakana character. */
  predicate AfterKatakana(text: seq<int>, best: seq<int>, i: int)
    requires 0 <= i <= |text| && i <= |best|
  {
    i > 0 && if best[i - 1] != UINT32_MAX then IsKatakana(text[i - 1]) else AfterKatakana(text, best, i - 1)
  }

  /** The words that are compared at `i`. */
  function Compared(text: seq<int>, dict: seq<seq<Word>>, best: seq<int>, i: int): seq<Word>
    requires |dict| == |text| && 0 <= i < |text| && i <= |best|
  {
    BaseWords(text, dict, i) +
      if IsKatakana(text[i]) && !AfterKatakana(text, best, i) then KatakanaWords(text, i) else []
  }

  lemma {:induction false} AfterKatakanaFrame(text: seq<int>, best: seq<int>, best': seq<int>, i: int)
    requires 0 <= i <= |text| && i <= |best| && i <= |best'| && forall q :: 0 <= q < i ==> best[q] == best'[q]
    ensures AfterKatakana(text, best, i) == AfterKatakana(text, best', i)
  {
    if i > 0 { AfterKatakanaFrame(text, best, best', i - 1); }
  }

  lemma ComparedFits(text: seq<int>, dict: seq<seq<Word>>, best: seq<int>, i: int, k: int)
    requires ValidMatches(text, dict) && 0 <= i < |text| && i <= |best| && 0 <= k < |Compared(text, dict, best, i)|
    ensures var w := Compared(text, dict, best, i)[k]; 1 <= w.length && i + w.length <= |text| && 0 <= w.cost
  {
  }

  /** Two tables of the right size. */
  ghost predicate Tables(best: seq<int>, prev: seq<int>, n: int) {
    && 0 <= n && |best| == |prev| == n + 1 && best[0] == 0
    && forall j :: 0 <= j <= n ==> 0 <= best[j] <= UINT32_MAX
  }

  /** Entry `j` is the sum of the finite entry for the previous position and the cost of one word there. */
  ghost predicate Attained(text: seq<int>, dict: seq<seq<Word>>, best: seq<int>, prev: seq<int>, j: int)
    requires |dict| == |text| && Tables(best, prev, |text|) && 0 < j <= |text|
  {
    && 0 <= prev[j] < j && best[prev[j]] != UINT32_MAX
    && exists k :: 0 <= k < |Compared(text, dict, best, prev[j])| && Gives(text, dict, best, prev[j], k, j)
  }

  ghost predicate Gives(text: seq<int>, dict: seq<seq<Word>>, best: seq<int>, p: int, k: int, j: int)
    requires |dict| == |text| && |best| == |text| + 1 && 0 <= p < |text| && 0 <= j <= |text|
    requires 0 <= k < |Compared(text, dict, best, p)|
  {
    var w := Compared(text, dict, best, p)[k];
    p + w.length == j && Wrapped(best[p] + w.cost) == best[j]
  }

  /** Word `k` at position `p` offers no improvement; among equal sums the first position counts. */
  ghost predicate Relaxed(text: seq<int>, dict: seq<seq<Word>>, best: seq<int>, prev: seq<int>, p: int, k: int)
    requires ValidMatches(text, dict) && Tables(best, prev, |text|)
    requires 0 <= p < |text| && 0 <= k < |Compared(text, dict, best, p)|
  {
    ComparedFits(text, dict, best, p, k);
    var w := Compared(text, dict, best, p)[k];
    var j, sum := p + w.length, Wrapped(best[p] + w.cost);
    best[p] != UINT32_MAX ==> best[j] <= sum && (best[j] == sum != UINT32_MAX ==> prev[j] <= p)
  }

  /** Words of all positions below `i`, and the first `m` words at `i`, have been compared. */
  ghost predicate Progress(text: seq<int>, dict: seq<seq<Word>>, best: seq<int>, prev: seq<int>, i: int, m: int)
    requires ValidMatches(text, dict) && 0 <= i <= |text|
  {
    && Tables(best, prev, |text|)
    && (forall j :: 0 < j <= |text| && best[j] != UINT32_MAX ==>
          prev[j] <= i && Attained(text, dict, best, prev, j))
    && (forall p, k :: 0 <= p < |text| && 0 <= k < |Compared(text, dict, best, p)| && (p < i || (p == i && k < m)) ==>
          Relaxed(text, dict, best, prev, p, k))
  }

  /** The tables after one word has been compared. */
  ghost predicate Offered(best: seq<int>, prev: seq<int>, i: int, w: Word, best': seq<int>, prev': seq<int>)
    requires |best| == |prev| && 0 <= i && 1 <= w.length && i + w.length < |best|
  {
    var j := i + w.length;
    var sum := Wrapped(best[i] + w.cost);
    if sum < best[j] then best' == best[j := sum] && prev' == prev[j := i] else best' == best && prev' == prev
  }

  lemma ComparedFrame(text: seq<int>, dict: seq<seq<Word>>, best: seq<int>, best': seq<int>, i: int)
    requires |dict| == |text| && 0 <= i < |text| && i <= |best| && i <= |best'|
    requires forall q :: 0 <= q < i ==> best[q] == best'[q]
    ensures Compared(text, dict, best, i) == Compared(text, dict, best', i)
  {
    AfterKatakanaFrame(text, best, best', i);
  }

  /** Entries stay attained. */
  lemma StillAttained(text: seq<int>, dict: seq<seq<Word>>, best: seq<int>, prev: seq<int>, i: int, m: int, w: Word,
                      best': seq<int>, prev': seq<int>, j': int)
    requires |dict| == |text| && 0 <= i < |text| && 0 < j' <= |text|
    requires Tables(best, prev, |text|) && Tables(best', prev', |text|) && best[i] != UINT32_MAX
    requires best[j'] != UINT32_MAX ==> prev[j'] <= i && Attained(text, dict, best, prev, j')
    requires 0 <= m < |Compared(text, dict, best, i)| && Compared(text, dict, best, i)[m] == w
    requires 1 <= w.length && i + w.length <= |text| && Offered(best, prev, i, w, best', prev')
    requires best'[j'] != UINT32_MAX
    ensures prev'[j'] <= i && Attained(text, dict, best', prev', j')
  {
    hide Compared, Wrapped;
    var j := i + w.length;
    if j' == j && Wrapped(best[i] + w.cost) < best[j] {
      ComparedFrame(text, dict, best, best', i);
      assert Gives(text, dict, best', i, m, j);
    } else {
      assert best'[j'] == best[j'] && prev'[j'] == prev[j'];
      AttainedFrame(text, dict, best, prev, best', prev', j');
    }
  }

  lemma AttainedFrame(text: seq<int>, dict: seq<seq<Word>>, best: seq<int>, prev: seq<int>,
                      best': seq<int>, prev': seq<int>, j: int)
    requires |dict| == |text| && 0 < j <= |text| && Tables(best, prev, |text|) && Tables(best', prev', |text|)
    requires Attained(text, dict, best, prev, j) && prev'[j] == prev[j] && best'[j] == best[j]
    requires forall q :: 0 <= q <= prev[j] ==> best'[q] == best[q]
    ensures Attained(text, dict, best', prev', j)
  {
    hide Compared, Wrapped;
    var p := prev[j];
    var k :| 0 <= k < |Compared(text, dict, best, p)| && Gives(text, dict, best, p, k, j);
    ComparedFrame(text, dict, best, best', p);
    assert Gives(text, dict, best', p, k, j);
  }

  /** Comparing one more word. */
  lemma OfferKeeps(text: seq<int>, dict: seq<seq<Word>>, best: seq<int>, prev: seq<int>, i: int, m: int,
                   best': seq<int>, prev': seq<int>)
    requires ValidMatches(text, dict) && 0 <= i < |text| && Progress(text, dict, best, prev, i, m)
    requires best[i] != UINT32_MAX && 0 <= m < |Compared(text, dict, best, i)|
    requires var w := Compared(text, dict, best, i)[m];
             1 <= w.length && i + w.length <= |text| && Offered(best, prev, i, w, best', prev')
    ensures Progress(text, dict, best', prev', i, m + 1)
  {
    OfferTables(best, prev, i, Compared(text, dict, best, i)[m], best', prev');
    hide Compared, ValidMatches, Attained, Relaxed, Wrapped;
    forall j' | 0 < j' <= |text| && best'[j'] != UINT32_MAX
      ensures prev'[j'] <= i && Attained(text, dict, best', prev', j')
    {
      StillAttained(text, dict, best, prev, i, m, Compared(text, dict, best, i)[m], best', prev', j');
    }
    forall p, k | 0 <= p < |text| && 0 <= k < |Compared(text, dict, best', p)| && (p < i || (p == i && k < m + 1))
      ensures Relaxed(text, dict, best', prev', p, k)
    {
      ComparedFrame(text, dict, best, best', p);
      OfferRelaxes(text, dict, best, prev, i, m, best', prev', p, k);
    }
  }

  lemma OfferTables(best: seq<int>, prev: seq<int>, i: int, w: Word, best': seq<int>, prev': seq<int>)
    requires Tables(best, prev, |best| - 1) && 0 <= i && 1 <= w.length && i + w.length < |best|
    requires Offered(best, prev, i, w, best', prev')
    ensures Tables(best', prev', |best| - 1)
  {
  }

  lemma OfferRelaxes(text: seq<int>, dict: seq<seq<Word>>, best: seq<int>, prev: seq<int>, i: int, m: int,
                     best': seq<int>, prev': seq<int>, p: int, k: int)
    requires ValidMatches(text, dict) && 0 <= i < |text| && Progress(text, dict, best, prev, i, m)
    requires best[i] != UINT32_MAX && 0 <= m < |Compared(text, dict, best, i)|
    requires var w := Compared(text, dict, best, i)[m];
             1 <= w.length && i + w.length <= |text| && Offered(best, prev, i, w, best', prev')
    requires Tables(best', prev', |text|) && 0 <= p < |text| && (p < i || (p == i && k < m + 1))
    requires Compared(text, dict, best, p) == Compared(text, dict, best', p) && 0 <= k < |Compared(text, dict, best, p)|
    ensures Relaxed(text, dict, best', prev', p, k)
  {
    hide Compared, ValidMatches, Attained, Wrapped;
    ComparedFits(text, dict, best, p, k);
    if p < i || k < m { assert Relaxed(text, dict, best, prev, p, k); }
  }

  /** Nothing leads on from a position without a finite entry; otherwise all its words have been compared. */
  lemma NextPosition(text: seq<int>, dict: seq<seq<Word>>, best: seq<int>, prev: seq<int>, i: int, m: int)
    requires ValidMatches(text, dict) && 0 <= i < |text| && Progress(text, dict, best, prev, i, m)
    requires best[i] == UINT32_MAX || m == |Compared(text, dict, best, i)|
    ensures Progress(text, dict, best, prev, i + 1, 0)
  {
    assert |dict| == |text|;
    hide Compared, ValidMatches, Attained;
    forall p, k | 0 <= p < |text| && 0 <= k < |Compared(text, dict, best, p)| && p < i + 1
      ensures Relaxed(text, dict, best, prev, p, k)
    {
      if p < i || k < m { assert Relaxed(text, dict, best, prev, p, k); }
    }
  }

  lemma InitialTables(text: seq<int>, dict: seq<seq<Word>>, best: seq<int>, prev: seq<int>)
    requires ValidMatches(text, dict) && |best| == |prev| == |text| + 1
    requires best[0] == 0 && forall j :: 0 < j <= |text| ==> best[j] == UINT32_MAX
    ensures Progress(text, dict, best, prev, 0, 0)
  {
    hide Compared, ValidMatches;
  }

  // ----- filling the tables

  /** Compares one word with the best way so far to the position after it. */
  method Relax(best: array<int>, prev: array<int>, i: int, w: Word)
    requires best != prev && best.Length == prev.Length && 0 <= i && 1 <= w.length && i + w.length < best.Length
    modifies best, prev
    ensures Offered(old(best[..]), old(prev[..]), i, w, best[..], prev[..])
  {
    var newSnlp := Wrapped(best[i] + w.cost);
    var j := i + w.length;
    if newSnlp < best[j] {
      best[j] := newSnlp;
      prev[j] := i;
      assert best[..] == old(best[..])[j := newSnlp] && prev[..] == old(prev[..])[j := i];
    }
  }

  /** Length of the Katakana run that starts at `i`. */
  method MeasureRun(text: seq<int>, i: int) returns (n: int)
    requires 0 <= i < |text|
    ensures n == RunLength(text, i, 1) && 1 <= n <= MAX_KATAKANA_GROUP_LENGTH
  {
    n := 1;
    while i + n < |text| && n < MAX_KATAKANA_GROUP_LENGTH && IsKatakana(text[i + n])
      invariant 1 <= n <= MAX_KATAKANA_GROUP_LENGTH && i + n <= |text|
      invariant RunLength(text, i, n) == RunLength(text, i, 1)
      decreases MAX_KATAKANA_GROUP_LENGTH - n
    {
      n := n + 1;
    }
  }

  /** Compares the words found at one reachable position. */
  method RelaxWords(text: seq<int>, dict: seq<seq<Word>>, best: array<int>, prev: array<int>, i: int)
    requires ValidMatches(text, dict) && 0 <= i < |text| && best != prev
    requires Progress(text, dict, best[..], prev[..], i, 0) && best[i] != UINT32_MAX
    modifies best, prev
    ensures Progress(text, dict, best[..], prev[..], i, |BaseWords(text, dict, i)|)
    ensures best[..i + 1] == old(best[..i + 1])
  {
    hide Attained, Relaxed, Wrapped, KatakanaWords;
    var words := dict[i];
    if (|words| == 0 || words[0].length != 1) && !IsHangul(text[i]) {
      words := words + [Word(1, MAX_SNLP)];
    }
    var k := 0;
    assert best.Length == prev.Length == |text| + 1;
    while k < |words|
      invariant 0 <= k <= |words| && best[..i + 1] == old(best[..i + 1])
      invariant Progress(text, dict, best[..], prev[..], i, k)
    {
      ghost var b, p := best[..], prev[..];
      assert best[i] == best[..i + 1][i] == old(best[..i + 1])[i];
      assert Compared(text, dict, b, i)[k] == words[k];
      ComparedFits(text, dict, b, i, k);
      Relax(best, prev, i, words[k]);
      OfferKeeps(text, dict, b, p, i, k, best[..], prev[..]);
      k := k + 1;
    }
  }

  /** Compares all words at one reachable position. */
  method RelaxPosition(text: seq<int>, dict: seq<seq<Word>>, best: array<int>, prev: array<int>, i: int,
                       prevKatakana: bool)
    requires ValidMatches(text, dict) && 0 <= i < |text| && best != prev
    requires Progress(text, dict, best[..], prev[..], i, 0) && best[i] != UINT32_MAX
    requires prevKatakana == AfterKatakana(text, best[..], i)
    modifies best, prev
    ensures Progress(text, dict, best[..], prev[..], i + 1, 0)
    ensures best[..i + 1] == old(best[..i + 1])
  {
    hide AfterKatakana, RunLength, Attained, Relaxed, Wrapped;
    ghost var b0 := best[..];
    RelaxWords(text, dict, best, prev, i);
    SameBefore(text, b0, best[..], i);
    ghost var k := |BaseWords(text, dict, i)|;
    assert best.Length == prev.Length == |text| + 1;
    if !prevKatakana && IsKatakana(text[i]) {
      var n := MeasureRun(text, i);
      if n < MAX_KATAKANA_GROUP_LENGTH {
        ghost var b, p := best[..], prev[..];
        var w := Word(n, KatakanaCost(n));
        assert Compared(text, dict, b, i)[k] == w;
        Relax(best, prev, i, w);
        OfferKeeps(text, dict, b, p, i, k, best[..], prev[..]);
        SameBefore(text, b, best[..], i);
        k := k + 1;
      }
    }
    NextPosition(text, dict, best[..], prev[..], i, k);
  }

  lemma SameBefore(text: seq<int>, best: seq<int>, best': seq<int>, i: int)
    requires 0 <= i < |text| && i < |best| && i < |best'| && best[..i + 1] == best'[..i + 1]
    ensures AfterKatakana(text, best, i) == AfterKatakana(text, best', i) && best[i] == best'[i]
  {
    forall q | 0 <= q < i + 1 ensures best[q] == best'[q] {
      assert best[..i + 1][q] == best'[..i + 1][q];
    }
    AfterKatakanaFrame(text, best, best', i);
  }

  method NewTables(text: seq<int>, ghost dict: seq<seq<Word>>) returns (best: array<int>, prev: array<int>)
    requires ValidMatches(text, dict)
    ensures fresh(best) && fresh(prev) && best != prev && best.Length == prev.Length == |text| + 1
    ensures Progress(text, dict, best[..], prev[..], 0, 0)
  {
    best := new int[|text| + 1](_ => UINT32_MAX);
    prev := new int[|text| + 1](_ => -1);
    best[0] := 0;
    InitialTables(text, dict, best[..], prev[..]);
  }

  /**
   Fills the tables: every entry is the least of the sums, in unsigned 32-bit arithmetic, that lead to its
   position, and its previous position is the first one that gives this sum.
   */
  method BestSegmentation(text: seq<int>, dict: seq<seq<Word>>) returns (best: array<int>, prev: array<int>)
    requires ValidMatches(text, dict)
    ensures fresh(best) && fresh(prev)
    ensures Progress(text, dict, best[..], prev[..], |text|, 0)
  {
    hide ValidMatches, Progress, AfterKatakana;
    best, prev := NewTables(text, dict);
    var i, prevKatakana := 0, false;
    AtStart(text, best[..]);
    while i < |text|
      invariant 0 <= i <= |text| && best.Length == prev.Length == |text| + 1
      invariant Progress(text, dict, best[..], prev[..], i, 0)
      invariant prevKatakana == AfterKatakana(text, best[..], i)
    {
      ghost var b := best[..];
      assert b[i] == best[i];
      if best[i] == UINT32_MAX {
        NextPosition(text, dict, b, prev[..], i, 0);
      } else {
        RelaxPosition(text, dict, best, prev, i, prevKatakana);
        prevKatakana := IsKatakana(text[i]);
        SameBefore(text, b, best[..], i);
      }
      AfterNext(text, best[..], i);
      i := i + 1;
    }
  }

  lemma AtStart(text: seq<int>, best: seq<int>)
    ensures !AfterKatakana(text, best, 0)
  {
  }

  lemma AfterNext(text: seq<int>, best: seq<int>, i: int)
    requires 0 <= i < |text| && i < |best|
    ensures AfterKatakana(text, best, i + 1) ==
              if best[i] != UINT32_MAX then IsKatakana(text[i]) else AfterKatakana(text, best, i)
  {
  }

  /** Every finite entry but the first leads back to an earlier finite entry. */
  ghost predicate Linked(best: seq<int>, prev: seq<int>, n: int) {
    && 0 <= n && |best| == |prev| == n + 1 && best[0] == 0
    && (forall j :: 0 < j <= n && best[j] != UINT32_MAX ==> 0 <= prev[j] < j && best[prev[j]] != UINT32_MAX)
  }

  lemma ProgressLinked(text: seq<int>, dict: seq<seq<Word>>, best: seq<int>, prev: seq<int>)
    requires ValidMatches(text, dict) && Progress(text, dict, best, prev, |text|, 0)
    ensures Linked(best, prev, |text|)
  {
    hide Compared, ValidMatches, Relaxed;
  }

  // ----- reachable positions

  lemma {:induction false} ReachByPath(text: seq<int>, dict: seq<seq<Word>>, path: seq<Step>, j: int)
    requires ValidMatches(text, dict) && 0 <= j <= |text| && IsPath(text, dict, path, j)
    ensures Reach(text, dict, j)
  {
    hide Words, ValidMatches;
    if path != [] {
      var s := path[|path| - 1];
      var k :| 0 <= k < |Words(text, dict, s.from)| && Words(text, dict, s.from)[k] == s.word;
      WordsFit(text, dict, s.from, k);
      ReachByPath(text, dict, path[..|path| - 1], s.from);
      assert ReachStep(text, dict, s.from, k, j);
    }
  }

  lemma {:induction false} PathByReach(text: seq<int>, dict: seq<seq<Word>>, j: int) returns (path: seq<Step>)
    requires ValidMatches(text, dict) && 0 <= j <= |text| && Reach(text, dict, j)
    ensures IsPath(text, dict, path, j)
    decreases j
  {
    hide Words, ValidMatches;
    if j == 0 {
      path := [];
    } else {
      var i, k :| 0 <= i < j && 0 <= k < |Words(text, dict, i)| && ReachStep(text, dict, i, k, j);
      var front := PathByReach(text, dict, i);
      path := front + [Step(i, Words(text, dict, i)[k])];
      assert path[..|path| - 1] == front;
    }
  }

  /**
   Text without Hangul can always be segmented, and Katakana runs then start where the character before is not
   Katakana.
   */
  lemma {:induction false} AlwaysReached(text: seq<int>, dict: seq<seq<Word>>, j: int)
    requires ValidMatches(text, dict) && 0 <= j <= |text| && forall c :: c in text ==> !IsHangul(c)
    ensures Reach(text, dict, j)
    ensures PrevKatakana(text, dict, j) <==> j > 0 && IsKatakana(text[j - 1])
    decreases j
  {
    if j > 0 {
      AlwaysReached(text, dict, j - 1);
      var i := j - 1;
      var base := BaseWords(text, dict, i);
      var k := if dict[i] != [] && dict[i][0].length == 1 then 0 else |dict[i]|;
      assert text[i] in text;
      assert base[k].length == 1;
      assert Words(text, dict, i)[k] == base[k];
      assert ReachStep(text, dict, i, k, j);
    }
  }
}
