/**
 Word breaks for Thai, Lao, Burmese and Khmer, stated without caches or text cursors: which dictionary word
 is taken at a position, how far it is extended, and the breaks that follow in a range.

 A text is a sequence of native units. The first unit of a code point holds the code point; a negative
 number stands for the other units of a code point.
 */
module WordSpec {

  const ROOT_COMBINE_THRESHOLD := 3
  const PREFIX_COMBINE_THRESHOLD := 3
  const MIN_WORD_SPAN := 4
  const PAIYANNOI := 0x0E2F
  const MAIYAMOK := 0x0E46

  /** Dictionary words at a position, shortest first: lengths in native units and in code points. */
  datatype Matches = Matches(cu: seq<int>, cp: seq<int>, prefix: int)

  /**
   A break engine applied to the range of a text that ends at `end`: what the dictionary finds at each
   position within the range, and the engine's character sets.
   */
  datatype Engine = Engine(text: seq<int>, end: int, dictionary: seq<Matches>, marks: set<int>,
                           endWord: set<int>, beginWord: set<int>, hasSuffixes: bool)
  {
    function WordsAt(p: int): Matches {
      if 0 <= p < |dictionary| then dictionary[p] else Matches([], [], 0)
    }
  }

  // ----- code points

  predicate Boundary(text: seq<int>, i: int) {
    0 <= i <= |text| && (i < |text| ==> text[i] >= 0)
  }

  function Next(text: seq<int>, i: int): (j: int)
    requires 0 <= i < |text|
    ensures i < j <= |text| && Boundary(text, j) && forall k :: i < k < j ==> !Boundary(text, k)
    decreases |text| - i
  {
    if i + 1 == |text| || text[i + 1] >= 0 then i + 1 else Next(text, i + 1)
  }

  function Previous(text: seq<int>, i: int): (j: int)
    requires 0 < i <= |text| && Boundary(text, 0)
    ensures 0 <= j < i && Boundary(text, j) && forall k :: j < k < i ==> !Boundary(text, k)
  {
    if text[i - 1] >= 0 then i - 1 else Previous(text, i - 1)
  }

  lemma PreviousNext(text: seq<int>, i: int)
    requires 0 <= i < |text| && Boundary(text, 0) && Boundary(text, i)
    ensures Previous(text, Next(text, i)) == i
  {
  }

  lemma NextPrevious(text: seq<int>, i: int)
    requires 0 < i <= |text| && Boundary(text, 0) && Boundary(text, i)
    ensures Next(text, Previous(text, i)) == i
  {
  }

  // ----- words

  ghost predicate ValidMatches(e: Engine, p: int) {
    var m := e.WordsAt(p);
    && |m.cu| == |m.cp|
    && (forall k :: 0 <= k < |m.cu| ==> 0 < m.cu[k] <= e.end - p && Boundary(e.text, p + m.cu[k]))
    && (forall j, k :: 0 <= j < k < |m.cu| ==> m.cu[j] < m.cu[k])
  }

  ghost predicate Valid(e: Engine) {
    && Boundary(e.text, 0) && 0 <= e.end && Boundary(e.text, e.end)
    && forall p :: 0 <= p < e.end && Boundary(e.text, p) ==> ValidMatches(e, p)
  }

  predicate HasWord(e: Engine, p: int) { p < e.end && e.WordsAt(p).cu != [] }

  /** End of word `k` at `p`. */
  function WordEnd(e: Engine, p: int, k: int): int
    requires 0 <= k < |e.WordsAt(p).cu|
  {
    p + e.WordsAt(p).cu[k]
  }

  /** End of the longest word at `p`. */
  function LongestEnd(e: Engine, p: int): int
    requires HasWord(e, p)
  {
    WordEnd(e, p, |e.WordsAt(p).cu| - 1)
  }

  /** Some word at `p` is followed by another word. */
  predicate HasTwoWords(e: Engine, p: int)
    requires HasWord(e, p)
  {
    exists k :: 0 <= k < |e.WordsAt(p).cu| && Followed(e, p, k)
  }

  /** Word `k` at `p` is followed by two words, or by one that reaches the end of the range. */
  predicate GoodWord(e: Engine, p: int, k: int)
    requires 0 <= k < |e.WordsAt(p).cu|
  {
    var q := WordEnd(e, p, k);
    HasWord(e, q) && (LongestEnd(e, q) >= e.end || HasTwoWords(e, q))
  }

  /** Word `k` at `p` is followed by another word. */
  predicate Followed(e: Engine, p: int, k: int)
    requires 0 <= k < |e.WordsAt(p).cu|
  {
    HasWord(e, WordEnd(e, p, k))
  }

  /** Which word is taken at `p`. */
  ghost predicate Taken(e: Engine, p: int, k: int)
    requires HasWord(e, p) && 0 <= k < |e.WordsAt(p).cu|
  {
    var n := |e.WordsAt(p).cu|;
    if n == 1 || LongestEnd(e, p) >= e.end then k == n - 1
    else if exists j :: 0 <= j < n && GoodWord(e, p, j)
    then GoodWord(e, p, k) && forall j :: k < j < n ==> !GoodWord(e, p, j)
    else if exists j :: 0 <= j < n && Followed(e, p, j)
    then Followed(e, p, k) && forall j :: 0 <= j < k ==> !Followed(e, p, j)
    else k == n - 1
  }

  lemma TakenUnique(e: Engine, p: int, k: int, k': int)
    requires HasWord(e, p) && 0 <= k < |e.WordsAt(p).cu| && 0 <= k' < |e.WordsAt(p).cu|
    requires Taken(e, p, k) && Taken(e, p, k')
    ensures k == k'
  {
    hide HasWord, GoodWord, Followed, LongestEnd;
  }

  // ----- extending a word

  /** Whether a word may end with the code point at `q` and another one may start after it, at `r`. */
  predicate Plausible(e: Engine, q: int, r: int)
    requires 0 <= q < r < |e.text|
  {
    e.text[q] in e.endWord && e.text[r] in e.beginWord && HasWord(e, r)
  }

  /** Where scanning from `q` over text that is no word stops: at a plausible word start or at the range end. */
  function Resynchronized(e: Engine, q: int): (r: int)
    requires 0 <= q < e.end <= |e.text|
    ensures q < r && Boundary(e.text, r) && (Boundary(e.text, e.end) ==> r <= e.end)
    decreases e.end - q
  {
    var r := Next(e.text, q);
    if r >= e.end || Plausible(e, q, r) then r
    else Resynchronized(e, r)
  }

  lemma ResynchronizedStep(e: Engine, q: int)
    requires 0 <= q < e.end && Boundary(e.text, e.end)
    ensures var r := Next(e.text, q);
            && r <= e.end
            && Resynchronized(e, q) == if r >= e.end || Plausible(e, q, r) then r else Resynchronized(e, r)
  {
    hide Plausible;
  }

  function AfterMarks(e: Engine, q: int): (r: int)
    requires 0 <= q && e.end <= |e.text| && Boundary(e.text, q)
    ensures q <= r && Boundary(e.text, r) && (Boundary(e.text, e.end) && q <= e.end ==> r <= e.end)
    decreases e.end - q
  {
    if q < e.end && e.text[q] in e.marks then AfterMarks(e, Next(e.text, q)) else q
  }

  predicate IsSuffix(c: int) { c == PAIYANNOI || c == MAIYAMOK }

  /** A PAIYANNOI after another character than a suffix, and then a MAIYAMOK unless there is one before it. */
  function AfterSuffixes(e: Engine, q: int): (r: int)
    requires 0 < q && e.end <= |e.text| && Boundary(e.text, 0) && Boundary(e.text, q)
    ensures q <= r && Boundary(e.text, r)
  {
    if !e.hasSuffixes || q >= e.end || HasWord(e, q) then q
    else if e.text[q] == PAIYANNOI then
      if IsSuffix(e.text[Previous(e.text, q)]) then q
      else
        var r := Next(e.text, q);
        if r < |e.text| && e.text[r] == MAIYAMOK then Next(e.text, r) else r
    else if e.text[q] == MAIYAMOK && e.text[Previous(e.text, q)] != MAIYAMOK then Next(e.text, q)
    else q
  }

  /** A short word followed by text that hardly looks like a word is combined with it. */
  predicate Combines(e: Engine, p: int, k: int)
    requires 0 <= k < |e.WordsAt(p).cu| == |e.WordsAt(p).cp|
  {
    var q := WordEnd(e, p, k);
    && q < e.end && e.WordsAt(p).cp[k] < ROOT_COMBINE_THRESHOLD && !HasWord(e, q)
    && e.WordsAt(q).prefix < PREFIX_COMBINE_THRESHOLD
  }

  /** The word that starts at `p` ends at `r`. */
  ghost predicate Breaks(e: Engine, p: int, r: int)
    requires Valid(e) && 0 <= p < e.end && Boundary(e.text, p)
  {
    assert ValidMatches(e, p);
    if !HasWord(e, p) then r == AfterSuffixes(e, AfterMarks(e, Resynchronized(e, p)))
    else exists k :: 0 <= k < |e.WordsAt(p).cu| && Taken(e, p, k) && r == Extended(e, p, k)
  }

  ghost function Extended(e: Engine, p: int, k: int): (r: int)
    requires Valid(e) && 0 <= p < e.end && Boundary(e.text, p) && HasWord(e, p) && 0 <= k < |e.WordsAt(p).cu|
    ensures p < r && Boundary(e.text, r)
  {
    assert ValidMatches(e, p);
    var q := WordEnd(e, p, k);
    AfterSuffixes(e, AfterMarks(e, if Combines(e, p, k) then Resynchronized(e, q) else q))
  }

  lemma BreaksUnique(e: Engine, p: int, r: int, r': int)
    requires Valid(e) && 0 <= p < e.end && Boundary(e.text, p) && Breaks(e, p, r) && Breaks(e, p, r')
    ensures r == r' && p < r && Boundary(e.text, r)
  {
    hide Taken, Extended, Valid, HasWord;
    if HasWord(e, p) {
      var k :| 0 <= k < |e.WordsAt(p).cu| && Taken(e, p, k) && r == Extended(e, p, k);
      var k' :| 0 <= k' < |e.WordsAt(p).cu| && Taken(e, p, k') && r' == Extended(e, p, k');
      TakenUnique(e, p, k, k');
    }
  }

  /** Where word `k` starts. */
  function WordStart(start: int, breaks: seq<int>, k: int): int
    requires 0 <= k <= |breaks|
  {
    if k == 0 then start else breaks[k - 1]
  }

  ghost predicate BreaksAt(e: Engine, p: int, r: int)
    requires Valid(e)
  {
    0 <= p < e.end && Boundary(e.text, p) && Breaks(e, p, r)
  }

  /** Successive words from `start` on end at `breaks`. */
  ghost predicate Run(e: Engine, start: int, breaks: seq<int>)
    requires Valid(e)
  {
    forall k :: 0 <= k < |breaks| ==> BreaksAt(e, WordStart(start, breaks, k), breaks[k])
  }

  /** A run up to the end of the range: only its last break is there or beyond. */
  ghost predicate WholeRun(e: Engine, start: int, breaks: seq<int>)
    requires Valid(e)
  {
    Run(e, start, breaks) && breaks != [] && breaks[|breaks| - 1] >= e.end
  }

  lemma RunStep(e: Engine, start: int, breaks: seq<int>, r: int)
    requires Valid(e) && Run(e, start, breaks) && BreaksAt(e, WordStart(start, breaks, |breaks|), r)
    ensures Run(e, start, breaks + [r])
  {
    hide BreaksAt, Valid;
    var longer := breaks + [r];
    forall k | 0 <= k < |longer| ensures BreaksAt(e, WordStart(start, longer, k), longer[k]) {
      assert WordStart(start, longer, k) == WordStart(start, breaks, k);
      if k < |breaks| { assert BreaksAt(e, WordStart(start, breaks, k), breaks[k]); }
    }
  }

  lemma OneBreak(e: Engine, p: int, r: int, r': int)
    requires Valid(e) && BreaksAt(e, p, r) && BreaksAt(e, p, r')
    ensures r == r' && p < r && p < e.end
  {
    hide Valid, Breaks;
    BreaksUnique(e, p, r, r');
  }

  lemma RunAt(e: Engine, start: int, breaks: seq<int>, k: int)
    requires Valid(e) && Run(e, start, breaks) && 0 <= k < |breaks|
    ensures BreaksAt(e, WordStart(start, breaks, k), breaks[k])
    ensures WordStart(start, breaks, k) < e.end && WordStart(start, breaks, k) < breaks[k]
  {
    hide Valid, BreaksAt;
    OneBreak(e, WordStart(start, breaks, k), breaks[k], breaks[k]);
  }

  lemma {:induction false} RunAscending(e: Engine, start: int, breaks: seq<int>, j: int, k: int)
    requires Valid(e) && Run(e, start, breaks) && 0 <= j <= k <= |breaks|
    ensures WordStart(start, breaks, j) <= WordStart(start, breaks, k)
    ensures j < k ==> WordStart(start, breaks, j) < WordStart(start, breaks, k)
    decreases k
  {
    hide Valid, BreaksAt, Run;
    if j < k {
      RunAscending(e, start, breaks, j, k - 1);
      RunAt(e, start, breaks, k - 1);
    }
  }

  /** All breaks of a whole run but the last lie strictly inside the range, in strictly ascending order. */
  lemma WholeRunInside(e: Engine, start: int, breaks: seq<int>)
    requires Valid(e) && WholeRun(e, start, breaks)
    ensures forall k :: 0 <= k < |breaks| - 1 ==> start < breaks[k] < e.end
    ensures forall j, k :: 0 <= j < k < |breaks| ==> breaks[j] < breaks[k]
  {
    hide Valid, BreaksAt, Run;
    forall k | 0 <= k < |breaks| - 1 ensures start < breaks[k] < e.end {
      RunAscending(e, start, breaks, 0, k + 1);
      RunAt(e, start, breaks, k + 1);
    }
    forall j, k | 0 <= j < k < |breaks| ensures breaks[j] < breaks[k] { RunAscending(e, start, breaks, j + 1, k + 1); }
  }

  /** The dictionary determines the whole run. */
  lemma {:induction false} WholeRunUnique(e: Engine, start: int, breaks: seq<int>, breaks': seq<int>, k: int)
    requires Valid(e) && WholeRun(e, start, breaks) && WholeRun(e, start, breaks')
    requires 0 <= k <= |breaks| && k <= |breaks'| && forall j :: 0 <= j < k ==> breaks[j] == breaks'[j]
    ensures breaks == breaks'
    decreases |breaks| - k
  {
    hide Valid, BreaksAt, Run;
    if k < |breaks'| { RunAt(e, start, breaks', k); }
    if k < |breaks| {
      RunAt(e, start, breaks, k);
      OneBreak(e, WordStart(start, breaks, k), breaks[k], breaks'[k]);
      WholeRunUnique(e, start, breaks, breaks', k + 1);
    }
  }

  // ----- the length of a range

  /** Moves `n` code points on, at most to the end of the text. */
  function Skip(text: seq<int>, i: int, n: nat): (r: int)
    requires Boundary(text, i)
    ensures i <= r && Boundary(text, r)
    decreases n
  {
    if n == 0 || i == |text| then i else Skip(text, Next(text, i), n - 1)
  }

  /** Too short for two words: counted in code points for Thai, in native units for the others. */
  ghost predicate TooShort(e: Engine, start: int)
    requires Boundary(e.text, start)
  {
    if e.hasSuffixes then Skip(e.text, start, MIN_WORD_SPAN) >= e.end else e.end - start < MIN_WORD_SPAN
  }
}
