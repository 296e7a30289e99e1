/** Which words a segmentation consists of, and what follows for breaks in Korean text. */
module CjkSteps {
  import opened CjkSegment
  import opened CjkCosts

  /** Hangul syllables. */
  predicate Syllable(c: int) { 44032 <= c < 44032 + 11172 }

  /** Katakana letters and marks without the middle dot, and halfwidth ones. */
  predicate Kana(c: int) {
    0x30a1 <= c <= 0x30fa || 0x30fc <= c <= 0x30fe || 0xff66 <= c <= 0xff9f
  }

  /** Without a one-character word in first place, any character but a Hangul syllable is a word of cost 255. */
  predicate Fallback(text: seq<int>, dict: seq<seq<Word>>, i: int, w: Word)
    requires |dict| == |text| && 0 <= i < |text|
  {
    w == Word(1, 255) && !Syllable(text[i]) && (dict[i] == [] || dict[i][0].length != 1)
  }

  /** All of the Katakana from `i` on, which are fewer than 20. */
  ghost predicate WholeRun(text: seq<int>, i: int, n: int)
    requires 0 <= i
  {
    && 1 <= n < 20 && i + n <= |text| && (forall k :: i <= k < i + n ==> Kana(text[k]))
    && (i + n < |text| ==> !Kana(text[i + n]))
  }

  /** The cost of a run of one to eight characters is in a table; longer ones are as costly as it gets. */
  ghost predicate RunCost(n: int, cost: int) {
    && (n == 1 ==> cost == 984) && (n == 2 ==> cost == 408) && (n == 3 ==> cost == 240) && (n == 4 ==> cost == 204)
    && (n == 5 ==> cost == 252) && (n == 6 ==> cost == 300) && (n == 7 ==> cost == 372) && (n == 8 ==> cost == 480)
    && (n > 8 ==> cost == 8192)
  }

  /** The last place before `i` where a segmentation can end has a Katakana character. */
  ghost predicate KanaBefore(text: seq<int>, dict: seq<seq<Word>>, i: int)
    requires ValidMatches(text, dict) && 0 <= i <= |text|
  {
    exists p :: 0 <= p < i && LastReached(text, dict, p, i) && Kana(text[p])
  }

  ghost predicate LastReached(text: seq<int>, dict: seq<seq<Word>>, p: int, i: int)
    requires ValidMatches(text, dict) && 0 <= p < i <= |text|
  {
    Reach(text, dict, p) && forall q :: p < q < i ==> !Reach(text, dict, q)
  }

  lemma {:induction false} PrevKatakanaIs(text: seq<int>, dict: seq<seq<Word>>, i: int)
    requires ValidMatches(text, dict) && 0 <= i <= |text|
    ensures PrevKatakana(text, dict, i) <==> KanaBefore(text, dict, i)
    decreases i
  {
    hide ValidMatches, Reach;
    if i > 0 {
      if Reach(text, dict, i - 1) {
        assert LastReached(text, dict, i - 1, i);
      } else {
        PrevKatakanaIs(text, dict, i - 1);
        forall p | 0 <= p < i - 1 ensures LastReached(text, dict, p, i) <==> LastReached(text, dict, p, i - 1) {
        }
      }
    }
  }

  /** A run starts where the last place reached before it is not Katakana. */
  ghost predicate RunWord(text: seq<int>, dict: seq<seq<Word>>, i: int, w: Word)
    requires ValidMatches(text, dict) && 0 <= i < |text|
  {
    WholeRun(text, i, w.length) && RunCost(w.length, w.cost) && !KanaBefore(text, dict, i)
  }

  lemma {:induction false} RunLengthIs(text: seq<int>, i: int, count: int)
    requires 0 <= i && 1 <= count <= 20 && i + count <= |text| && forall k :: i <= k < i + count ==> Kana(text[k])
    ensures var n := RunLength(text, i, count);
            && count <= n <= 20 && i + n <= |text| && (forall k :: i <= k < i + n ==> Kana(text[k]))
            && (n < 20 && i + n < |text| ==> !Kana(text[i + n]))
    decreases 20 - count
  {
    if i + count < |text| && count < 20 && Kana(text[i + count]) { RunLengthIs(text, i, count + 1); }
  }

  /** The words at a place are exactly those of the dictionary, the fallback and the run of Katakana. */
  lemma {:induction false} WordsAre(text: seq<int>, dict: seq<seq<Word>>, i: int, w: Word)
    requires ValidMatches(text, dict) && 0 <= i < |text|
    ensures w in Words(text, dict, i) <==>
              w in dict[i] || Fallback(text, dict, i, w) || RunWord(text, dict, i, w)
  {
    PrevKatakanaIs(text, dict, i);
    BaseWordsAre(text, dict, i, w);
    KatakanaWordsAre(text, i, w);
    hide PrevKatakana, KanaBefore, BaseWords, KatakanaWords, Fallback, RunCost;
  }

  lemma BaseWordsAre(text: seq<int>, dict: seq<seq<Word>>, i: int, w: Word)
    requires |dict| == |text| && 0 <= i < |text|
    ensures w in BaseWords(text, dict, i) <==> w in dict[i] || Fallback(text, dict, i, w)
  {
  }

  lemma KatakanaWordsAre(text: seq<int>, i: int, w: Word)
    requires 0 <= i < |text|
    ensures IsKatakana(text[i]) ==>
              (w in KatakanaWords(text, i) <==> WholeRun(text, i, w.length) && RunCost(w.length, w.cost))
  {
    if Kana(text[i]) {
      RunLengthIs(text, i, 1);
      var n := RunLength(text, i, 1);
      hide RunLength;
      if WholeRun(text, i, w.length) { OneRun(text, i, n, w.length); }
    }
  }

  lemma OneRun(text: seq<int>, i: int, n: int, m: int)
    requires 0 <= i && WholeRun(text, i, m) && 1 <= n <= 20 && i + n <= |text|
    requires forall k :: i <= k < i + n ==> Kana(text[k])
    requires n < 20 && i + n < |text| ==> !Kana(text[i + n])
    ensures n == m
  {
    var afterM := if i + m < |text| then text[i + m] else 0;
    var afterN := if i + n < |text| then text[i + n] else 0;
  }

  // ----- segmentations

  /** Every word of a segmentation starts where the one before it ends, and is of one of the three kinds. */
  lemma {:induction false} StepKinds(text: seq<int>, dict: seq<seq<Word>>, path: seq<Step>, j: int, k: int)
    requires ValidMatches(text, dict) && IsPath(text, dict, path, j) && 0 <= k < |path|
    ensures var s := path[k];
            && 0 <= s.from < |text| && s.from == (if k == 0 then 0 else path[k - 1].from + path[k - 1].word.length)
            && (s.word in dict[s.from] || Fallback(text, dict, s.from, s.word) || RunWord(text, dict, s.from, s.word))
    decreases |path|
  {
    hide Words, ValidMatches, Fallback, RunWord;
    var front, s := path[..|path| - 1], path[|path| - 1];
    if k < |path| - 1 {
      StepKinds(text, dict, front, s.from, k);
      assert front[k] == path[k];
    } else {
      WordsAre(text, dict, s.from, s.word);
      EndOfPath(text, dict, front, s.from);
      if front != [] { assert Ends(front)[|front| - 1] == s.from; }
    }
  }

  /** A word that starts with a Hangul syllable is in the dictionary. */
  lemma {:induction false} HangulSteps(text: seq<int>, dict: seq<seq<Word>>, path: seq<Step>, j: int, k: int)
    requires ValidMatches(text, dict) && IsPath(text, dict, path, j) && 0 <= k < |path|
    requires 0 <= path[k].from < |text| && Syllable(text[path[k].from])
    ensures path[k].word in dict[path[k].from]
  {
    hide IsPath, ValidMatches, KanaBefore;
    StepKinds(text, dict, path, j, k);
  }

  /** Hangul syllables without any dictionary word. */
  ghost predicate Unsplittable(text: seq<int>, dict: seq<seq<Word>>) {
    text != [] && |dict| == |text| && forall i :: 0 <= i < |text| ==> Syllable(text[i]) && dict[i] == []
  }

  /** Korean text without dictionary words is left together. */
  lemma {:induction false} LeftTogether(text: seq<int>, dict: seq<seq<Word>>)
    requires ValidMatches(text, dict) && Unsplittable(text, dict)
    ensures !Segmentable(text, dict) && Harmless(text, dict)
  {
    hide ValidMatches, IsPath, CheapestTo;
    forall i | 0 <= i < |text| ensures |Words(text, dict, i)| == 0 {
    }
    forall path ensures !IsPath(text, dict, path, |text|) {
      if IsPath(text, dict, path, |text|) {
        PathBounds(text, dict, path, |text|);
        StepKinds(text, dict, path, |text|, 0);
        assert false;
      }
    }
  }
}
