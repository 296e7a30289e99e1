/** Where words of Thai, Lao, Burmese and Khmer text can end, in terms of the characters around the place. */
module WordEnds {
  import opened WordSpec

  /** The characters from `q` to `r` are all marks. */
  ghost predicate OnlyMarks(e: Engine, q: int, r: int) {
    forall k :: q <= k < r && Boundary(e.text, k) && k < |e.text| ==> e.text[k] in e.marks
  }

  /** Marks are passed over up to the first character that is none, or to the end of the range. */
  lemma {:induction false} MarksPassed(e: Engine, q: int)
    requires Boundary(e.text, e.end) && Boundary(e.text, q) && q <= e.end
    ensures MarksTo(e, q, AfterMarks(e, q))
    decreases e.end - q
  {
    if q < e.end && e.text[q] in e.marks {
      var n := Next(e.text, q);
      assert n <= e.end;
      MarksPassed(e, n);
      var r := AfterMarks(e, q);
      forall k | q <= k < r && Boundary(e.text, k) && k < |e.text| ensures e.text[k] in e.marks {
        assert k == q || n <= k;
      }
    }
  }

  ghost predicate MarksTo(e: Engine, q: int, r: int) {
    && q <= r <= e.end && Boundary(e.text, r) && OnlyMarks(e, q, r)
    && (r < |e.text| && r < e.end ==> e.text[r] !in e.marks)
  }

  lemma MarksToUnique(e: Engine, q: int, r: int, r': int)
    requires MarksTo(e, q, r) && MarksTo(e, q, r') && 0 <= q && e.end <= |e.text|
    ensures r == r'
  {
  }

  /** A character that can end a word is before `r`, one that can begin a word is at `r`, and a word starts there. */
  ghost predicate WordCanStart(e: Engine, r: int)
    requires Boundary(e.text, 0)
  {
    && 0 < r < e.end <= |e.text| && Boundary(e.text, r)
    && e.text[Previous(e.text, r)] in e.endWord && e.text[r] in e.beginWord && e.WordsAt(r).cu != []
  }

  ghost predicate ScannedTo(e: Engine, q: int, r: int)
    requires Boundary(e.text, 0)
  {
    && q < r <= e.end && Boundary(e.text, r) && (r == e.end || WordCanStart(e, r))
    && forall k :: q < k < r ==> !WordCanStart(e, k)
  }

  lemma ScannedToUnique(e: Engine, q: int, r: int, r': int)
    requires Boundary(e.text, 0) && ScannedTo(e, q, r) && ScannedTo(e, q, r')
    ensures r == r'
  {
  }

  /** Scanning over text that is no word stops at the first place where a word can start, or at the range end. */
  lemma {:induction false} ScanStops(e: Engine, q: int)
    requires Boundary(e.text, 0) && Boundary(e.text, e.end) && Boundary(e.text, q) && q < e.end
    ensures ScannedTo(e, q, Resynchronized(e, q))
    decreases e.end - q
  {
    var n := Next(e.text, q);
    PreviousNext(e.text, q);
    assert n < e.end ==> (WordCanStart(e, n) <==> Plausible(e, q, n));
    if n < e.end && !Plausible(e, q, n) {
      ScanStops(e, n);
      forall k | q < k < Resynchronized(e, q) ensures !WordCanStart(e, k) {
        assert k == n || k > n || !Boundary(e.text, k);
      }
    }
  }

  /** The elision character at `q` belongs to the word before it, unless that ends with a suffix character. */
  predicate TakesElision(text: seq<int>, q: int)
    requires 0 < q <= |text| && Boundary(text, 0)
  {
    q < |text| && text[q] == 0x0e2f && text[Previous(text, q)] != 0x0e2f && text[Previous(text, q)] != 0x0e46
  }

  /** The repetition character at `q` belongs to the word before it, unless that ends with another one. */
  predicate TakesRepetition(text: seq<int>, q: int)
    requires 0 < q <= |text| && Boundary(text, 0)
  {
    q < |text| && text[q] == 0x0e46 && text[Previous(text, q)] != 0x0e46
  }

  /** Where no word follows, an elision character and then a repetition character are taken. */
  ghost predicate SuffixesTo(e: Engine, q: int, r: int)
    requires 0 < q && e.end <= |e.text| && Boundary(e.text, 0) && Boundary(e.text, q)
  {
    var q' := if TakesElision(e.text, q) then Next(e.text, q) else q;
    r == if !e.hasSuffixes || q >= e.end || e.WordsAt(q).cu != [] then q
         else if TakesRepetition(e.text, q') then Next(e.text, q')
         else q'
  }

  lemma SuffixesTaken(e: Engine, q: int)
    requires 0 < q && e.end <= |e.text| && Boundary(e.text, 0) && Boundary(e.text, q)
    ensures SuffixesTo(e, q, AfterSuffixes(e, q))
  {
    if q < |e.text| { PreviousNext(e.text, q); }
  }

  /** The character before `r` is one of the two suffix characters. */
  ghost predicate AfterSuffix(text: seq<int>, r: int)
    requires Boundary(text, 0)
  {
    0 < r <= |text| && text[Previous(text, r)] in {0x0e2f, 0x0e46}
  }

  lemma SuffixBefore(e: Engine, q: int)
    requires 0 < q && e.end <= |e.text| && Boundary(e.text, 0) && Boundary(e.text, q)
    ensures var r := AfterSuffixes(e, q); r == q || (e.hasSuffixes && AfterSuffix(e.text, r))
  {
    if q < |e.text| {
      var n := Next(e.text, q);
      PreviousNext(e.text, q);
      if n < |e.text| { PreviousNext(e.text, n); }
    }
  }

  /** A word never ends before a mark, except after a suffix character that has been added to it. */
  ghost predicate NotBeforeMark(e: Engine, r: int) {
    Boundary(e.text, 0) && 0 <= r < |e.text| && (e.text[r] !in e.marks || (e.hasSuffixes && AfterSuffix(e.text, r)))
  }

  lemma EndNotBeforeMark(e: Engine, q: int)
    requires Boundary(e.text, 0) && Boundary(e.text, e.end) && Boundary(e.text, q) && 0 < q <= e.end
    ensures var r := AfterSuffixes(e, AfterMarks(e, q)); r < e.end ==> NotBeforeMark(e, r)
  {
    hide AfterSuffixes, AfterMarks;
    MarksPassed(e, q);
    SuffixBefore(e, AfterMarks(e, q));
  }

  lemma BreakNotBeforeMark(e: Engine, p: int, r: int)
    requires Valid(e) && BreaksAt(e, p, r) && r < e.end
    ensures NotBeforeMark(e, r)
  {
    hide AfterSuffixes, AfterMarks, Taken, Resynchronized, Combines, NotBeforeMark;
    assert ValidMatches(e, p);
    if !HasWord(e, p) {
      EndNotBeforeMark(e, Resynchronized(e, p));
    } else {
      var k :| 0 <= k < |e.WordsAt(p).cu| && Taken(e, p, k) && r == Extended(e, p, k);
      var q := WordEnd(e, p, k);
      EndNotBeforeMark(e, if Combines(e, p, k) then Resynchronized(e, q) else q);
    }
  }

  /** In a whole run, no break inside the range is before a mark, except after a suffix character. */
  lemma RunNotBeforeMarks(e: Engine, start: int, breaks: seq<int>)
    requires Valid(e) && WholeRun(e, start, breaks)
    ensures forall k :: 0 <= k < |breaks| - 1 ==> NotBeforeMark(e, breaks[k])
  {
    hide Valid, BreaksAt, Run, NotBeforeMark;
    WholeRunInside(e, start, breaks);
    forall k | 0 <= k < |breaks| - 1 ensures NotBeforeMark(e, breaks[k]) {
      RunAt(e, start, breaks, k);
      BreakNotBeforeMark(e, WordStart(start, breaks, k), breaks[k]);
    }
  }

  // ----- all of it

  /** Word `k` at `p` is followed by text that is added to it. */
  predicate AddsText(e: Engine, p: int, k: int)
    requires 0 <= k < |e.WordsAt(p).cu| == |e.WordsAt(p).cp|
  {
    var q := p + e.WordsAt(p).cu[k];
    q < e.end && e.WordsAt(p).cp[k] <= 2 && e.WordsAt(q).cu == [] && e.WordsAt(q).prefix <= 2
  }

  /** Before marks and suffixes, what starts at `p` ends at `s`: text that is no word, or the word that is taken. */
  ghost predicate CoreEnds(e: Engine, p: int, s: int)
    requires Valid(e) && 0 <= p < e.end && Boundary(e.text, p)
  {
    assert ValidMatches(e, p);
    if e.WordsAt(p).cu == [] then ScannedTo(e, p, s)
    else exists k :: 0 <= k < |e.WordsAt(p).cu| && Taken(e, p, k) && TakenTo(e, p, k, s)
  }

  ghost predicate TakenTo(e: Engine, p: int, k: int, s: int)
    requires Boundary(e.text, 0) && 0 <= k < |e.WordsAt(p).cu| == |e.WordsAt(p).cp|
  {
    var q := p + e.WordsAt(p).cu[k];
    if AddsText(e, p, k) then ScannedTo(e, q, s) else s == q
  }

  lemma TakenToUnique(e: Engine, p: int, k: int, s: int, s': int)
    requires Boundary(e.text, 0) && 0 <= k < |e.WordsAt(p).cu| == |e.WordsAt(p).cp|
    requires TakenTo(e, p, k, s) && TakenTo(e, p, k, s')
    ensures s == s'
  {
    hide ScannedTo;
    var q := p + e.WordsAt(p).cu[k];
    if AddsText(e, p, k) { ScannedToUnique(e, q, s, s'); }
  }

  ghost predicate RestTo(e: Engine, s: int, m: int, r: int) {
    && 0 < s && e.end <= |e.text| && Boundary(e.text, 0) && Boundary(e.text, m)
    && MarksTo(e, s, m) && SuffixesTo(e, m, r)
  }

  /** A word ends after its core, the marks after that, and the suffixes after those. */
  ghost predicate EndsAt(e: Engine, p: int, r: int)
    requires Valid(e) && 0 <= p < e.end && Boundary(e.text, p)
  {
    exists s, m :: CoreEnds(e, p, s) && RestTo(e, s, m, r)
  }

  lemma CoreOf(e: Engine, p: int, k: int)
    requires Valid(e) && 0 <= p < e.end && Boundary(e.text, p) && HasWord(e, p) && 0 <= k < |e.WordsAt(p).cu|
    ensures ValidMatches(e, p)
    ensures var q := WordEnd(e, p, k);
            var s := if Combines(e, p, k) then Resynchronized(e, q) else q;
            0 < s <= e.end && Boundary(e.text, s) && TakenTo(e, p, k, s)
  {
    assert ValidMatches(e, p);
    var q := WordEnd(e, p, k);
    assert Combines(e, p, k) <==> AddsText(e, p, k);
    if Combines(e, p, k) { ScanStops(e, q); }
    hide Resynchronized, ScannedTo;
  }

  lemma RestOf(e: Engine, s: int)
    requires Boundary(e.text, 0) && Boundary(e.text, e.end) && Boundary(e.text, s) && 0 < s <= e.end
    ensures RestTo(e, s, AfterMarks(e, s), AfterSuffixes(e, AfterMarks(e, s)))
  {
    hide AfterMarks, AfterSuffixes;
    MarksPassed(e, s);
    SuffixesTaken(e, AfterMarks(e, s));
  }

  /** This is the break that the engine finds, and no other. */
  lemma BreaksIff(e: Engine, p: int, r: int)
    requires Valid(e) && 0 <= p < e.end && Boundary(e.text, p)
    ensures Breaks(e, p, r) <==> EndsAt(e, p, r)
  {
    hide Valid, Taken, AfterMarks, AfterSuffixes, RestTo, TakenTo, Resynchronized, ScannedTo, Combines, ValidMatches;
    ValidEnds(e);
    if Breaks(e, p, r) { BreakEnds(e, p, r); }
    if EndsAt(e, p, r) {
      var s, m :| CoreEnds(e, p, s) && RestTo(e, s, m, r);
      EndBreaks(e, p, s, m, r);
    }
  }

  lemma ValidEnds(e: Engine)
    requires Valid(e)
    ensures Boundary(e.text, 0) && Boundary(e.text, e.end) && e.end <= |e.text|
  {
  }

  lemma BreakEnds(e: Engine, p: int, r: int)
    requires Valid(e) && 0 <= p < e.end && Boundary(e.text, p) && Breaks(e, p, r)
    ensures EndsAt(e, p, r)
  {
    hide Taken, AfterMarks, AfterSuffixes, RestTo, TakenTo, Resynchronized, ScannedTo, Combines;
    assert ValidMatches(e, p);
    var s: int;
    if !HasWord(e, p) {
      s := Resynchronized(e, p);
      ScanStops(e, p);
    } else {
      var k :| 0 <= k < |e.WordsAt(p).cu| && Taken(e, p, k) && r == Extended(e, p, k);
      var q := WordEnd(e, p, k);
      s := if Combines(e, p, k) then Resynchronized(e, q) else q;
      CoreOf(e, p, k);
    }
    RestOf(e, s);
    assert CoreEnds(e, p, s) && RestTo(e, s, AfterMarks(e, s), r);
  }

  lemma EndBreaks(e: Engine, p: int, s: int, m: int, r: int)
    requires Valid(e) && 0 <= p < e.end && Boundary(e.text, p) && CoreEnds(e, p, s) && RestTo(e, s, m, r)
    ensures Breaks(e, p, r)
  {
    hide Taken, AfterMarks, AfterSuffixes, Resynchronized, Combines, ScannedTo, MarksTo, SuffixesTo, TakenTo;
    assert ValidMatches(e, p);
    if !HasWord(e, p) {
      ScanStops(e, p);
      ScannedToUnique(e, p, s, Resynchronized(e, p));
    } else {
      var k :| 0 <= k < |e.WordsAt(p).cu| && Taken(e, p, k) && TakenTo(e, p, k, s);
      CoreOf(e, p, k);
      var q := WordEnd(e, p, k);
      TakenToUnique(e, p, k, s, if Combines(e, p, k) then Resynchronized(e, q) else q);
    }
    RestUnique(e, s, m, r);
    assert HasWord(e, p) ==> exists k :: 0 <= k < |e.WordsAt(p).cu| && Taken(e, p, k) && r == Extended(e, p, k);
  }

  lemma RestUnique(e: Engine, s: int, m: int, r: int)
    requires RestTo(e, s, m, r) && Boundary(e.text, e.end) && Boundary(e.text, s) && s <= e.end
    ensures r == AfterSuffixes(e, AfterMarks(e, s))
  {
    hide AfterMarks, AfterSuffixes;
    MarksPassed(e, s);
    MarksToUnique(e, s, m, AfterMarks(e, s));
    SuffixesTaken(e, m);
  }

  // ----- which word is taken

  /** A dictionary word goes from `p` to `r`. */
  ghost predicate WordFrom(e: Engine, p: int, r: int) {
    p < e.end && exists k :: 0 <= k < |e.WordsAt(p).cu| && p + e.WordsAt(p).cu[k] == r
  }

  ghost predicate FollowedByWord(e: Engine, r: int) { exists t :: WordFrom(e, r, t) }

  /** After `r` comes a word up to the end of the range, or two words. */
  ghost predicate FollowedByTwo(e: Engine, r: int) {
    exists t :: WordFrom(e, r, t) && (t >= e.end || FollowedByWord(e, t))
  }

  /**
   Of the words at `p`, the one up to `r` is taken: one that reaches the end of the range, or else the longest one
   that two words follow, or else the shortest one that a word follows, or else the longest one.
   */
  ghost predicate Preferred(e: Engine, p: int, r: int) {
    && WordFrom(e, p, r)
    && if WordFrom(e, p, e.end) then r == e.end
       else if exists t :: WordFrom(e, p, t) && FollowedByTwo(e, t) then
         FollowedByTwo(e, r) && forall t :: WordFrom(e, p, t) && r < t ==> !FollowedByTwo(e, t)
       else if exists t :: WordFrom(e, p, t) && FollowedByWord(e, t) then
         FollowedByWord(e, r) && forall t :: WordFrom(e, p, t) && t < r ==> !FollowedByWord(e, t)
       else forall t :: WordFrom(e, p, t) ==> t <= r
  }

  lemma FollowedIff(e: Engine, r: int)
    ensures FollowedByWord(e, r) <==> HasWord(e, r)
  {
    if HasWord(e, r) { assert WordFrom(e, r, r + e.WordsAt(r).cu[0]); }
  }

  lemma LongestFrom(e: Engine, p: int)
    requires Valid(e) && 0 <= p < e.end && Boundary(e.text, p) && HasWord(e, p)
    ensures var r := LongestEnd(e, p);
            WordFrom(e, p, r) && p < r <= e.end && forall t :: WordFrom(e, p, t) ==> t <= r
  {
    assert ValidMatches(e, p);
  }

  lemma TwoIff(e: Engine, p: int)
    requires Valid(e) && 0 <= p < e.end && Boundary(e.text, p) && HasWord(e, p)
    ensures FollowedByTwo(e, p) <==> LongestEnd(e, p) >= e.end || HasTwoWords(e, p)
  {
    hide FollowedByWord, HasWord;
    LongestFrom(e, p);
    if HasTwoWords(e, p) {
      var k :| 0 <= k < |e.WordsAt(p).cu| && Followed(e, p, k);
      FollowedIff(e, WordEnd(e, p, k));
      assert WordFrom(e, p, WordEnd(e, p, k));
    }
    if FollowedByTwo(e, p) {
      var t :| WordFrom(e, p, t) && (t >= e.end || FollowedByWord(e, t));
      var k :| 0 <= k < |e.WordsAt(p).cu| && p + e.WordsAt(p).cu[k] == t;
      FollowedIff(e, t);
      assert t < e.end ==> Followed(e, p, k);
    }
  }

  lemma GoodIff(e: Engine, p: int, k: int)
    requires Valid(e) && 0 <= p < e.end && Boundary(e.text, p) && 0 <= k < |e.WordsAt(p).cu|
    ensures GoodWord(e, p, k) <==> FollowedByTwo(e, WordEnd(e, p, k))
  {
    hide HasTwoWords, FollowedByTwo, LongestEnd;
    assert ValidMatches(e, p);
    var q := WordEnd(e, p, k);
    if HasWord(e, q) { TwoIff(e, q); } else { NoneAfter(e, q); }
  }

  lemma NoneAfter(e: Engine, q: int)
    requires !HasWord(e, q)
    ensures !FollowedByTwo(e, q)
  {
  }

  /** The word that is taken. */
  lemma TakenPreferred(e: Engine, p: int, k: int)
    requires Valid(e) && 0 <= p < e.end && Boundary(e.text, p) && HasWord(e, p) && 0 <= k < |e.WordsAt(p).cu|
    requires Taken(e, p, k)
    ensures Preferred(e, p, WordEnd(e, p, k))
  {
    hide FollowedByTwo, FollowedByWord, GoodWord, Followed, LongestEnd, HasWord, Valid, WordFrom;
    var n, r := |e.WordsAt(p).cu|, WordEnd(e, p, k);
    LongestFrom(e, p);
    WordIndex(e, p, k);
    forall j | 0 <= j < n ensures WordFrom(e, p, WordEnd(e, p, j)) && (WordEnd(e, p, j) < r <==> j < k) {
      WordIndex(e, p, j);
      WordOrder(e, p, j, k);
    }
    forall t | WordFrom(e, p, t)
      ensures FollowedByTwo(e, t) ==> exists j :: 0 <= j < n && GoodWord(e, p, j)
      ensures FollowedByWord(e, t) ==> exists j :: 0 <= j < n && Followed(e, p, j)
      ensures r < t && FollowedByTwo(e, t) ==> exists j :: k < j < n && GoodWord(e, p, j)
      ensures t < r && FollowedByWord(e, t) ==> exists j :: 0 <= j < k && Followed(e, p, j)
      ensures k == n - 1 ==> t <= r
    {
      var j := IndexOfEnd(e, p, t);
      WordIndex(e, p, j);
      WordOrder(e, p, j, k);
      WordOrder(e, p, k, j);
    }
  }

  lemma IndexOfEnd(e: Engine, p: int, t: int) returns (j: int)
    requires WordFrom(e, p, t)
    ensures 0 <= j < |e.WordsAt(p).cu| && WordEnd(e, p, j) == t
  {
    j :| 0 <= j < |e.WordsAt(p).cu| && p + e.WordsAt(p).cu[j] == t;
  }

  lemma WordIndex(e: Engine, p: int, j: int)
    requires Valid(e) && 0 <= p < e.end && Boundary(e.text, p) && 0 <= j < |e.WordsAt(p).cu|
    ensures WordFrom(e, p, WordEnd(e, p, j))
    ensures GoodWord(e, p, j) <==> FollowedByTwo(e, WordEnd(e, p, j))
    ensures Followed(e, p, j) <==> FollowedByWord(e, WordEnd(e, p, j))
  {
    hide FollowedByTwo, FollowedByWord, GoodWord, HasWord;
    GoodIff(e, p, j);
    FollowedIff(e, WordEnd(e, p, j));
  }

  lemma WordOrder(e: Engine, p: int, j: int, k: int)
    requires Valid(e) && 0 <= p < e.end && Boundary(e.text, p)
    requires 0 <= j < |e.WordsAt(p).cu| && 0 <= k < |e.WordsAt(p).cu|
    ensures j < k <==> WordEnd(e, p, j) < WordEnd(e, p, k)
  {
    assert ValidMatches(e, p);
  }

  // ----- the length of a range

  /** Number of characters that start from `i` on and before `end`. */
  function Characters(text: seq<int>, i: int, end: int): nat
    requires 0 <= i && end <= |text|
    decreases end - i
  {
    if i < end then (if text[i] >= 0 then 1 else 0) + Characters(text, i + 1, end) else 0
  }

  lemma {:induction false} CharactersStep(text: seq<int>, i: int, j: int, end: int)
    requires 0 <= i <= j <= end <= |text| && forall k :: i <= k < j ==> !Boundary(text, k)
    ensures Characters(text, i, end) == Characters(text, j, end)
    decreases j - i
  {
    if i < j {
      assert !Boundary(text, i);
      CharactersStep(text, i + 1, j, end);
    }
  }

  lemma {:induction false} SkipPasses(text: seq<int>, i: int, n: nat, end: int)
    requires Boundary(text, i) && Boundary(text, end)
    ensures Skip(text, i, n) >= end <==> Characters(text, i, end) <= n
    decreases n
  {
    if i < end {
      var j := Next(text, i);
      assert j <= end;
      CharactersStep(text, i + 1, j, end);
      if n > 0 { SkipPasses(text, j, n - 1, end); }
    }
  }

  /** Thai ranges of at most four characters, and others of at most three units, are left alone. */
  lemma TooShortIff(e: Engine, start: int)
    requires Valid(e) && Boundary(e.text, start)
    ensures TooShort(e, start) <==>
              if e.hasSuffixes then Characters(e.text, start, e.end) <= 4 else e.end - start <= 3
  {
    hide Skip, Characters;
    SkipPasses(e.text, start, 4, e.end);
  }
}
