/**
 Word breaks in a range of Chinese or Japanese text: the boundaries of the cheapest segmentation, taken
 back to native indexes.
 */
module CjkBreaks {
  import opened Utf16
  import opened CjkSegment
  import opened CjkCosts
  import opened CjkSteps
  import opened CjkMap
  import opened Vectors

  /** Positions of word ends, strictly ascending within the text and ending with its end. */
  ghost predicate Bounds(bounds: seq<int>, n: int) {
    && Ascending(bounds) && bounds != [] && bounds[|bounds| - 1] == n
    && forall k :: 0 <= k < |bounds| ==> 0 < bounds[k]
  }

  function Reversed(s: seq<int>): seq<int> { seq(|s|, k requires 0 <= k < |s| => s[|s| - 1 - k]) }

  lemma {:induction false} ChainAscending(best: seq<int>, prev: seq<int>, n: int, j: int)
    requires Linked(best, prev, n) && 0 <= j <= n && best[j] != UINT32_MAX
    ensures Ascending(Chain(prev, j)) && forall k :: 0 <= k < |Chain(prev, j)| ==> 0 < Chain(prev, j)[k] <= j
    ensures 0 < j ==> Chain(prev, j) != [] && Chain(prev, j)[|Chain(prev, j)| - 1] == j
    decreases j
  {
    if 0 < j { ChainAscending(best, prev, n, prev[j]); }
  }

  lemma ReversedSnoc(s: seq<int>, x: int)
    ensures Reversed(s + [x]) == [x] + Reversed(s)
  {
  }

  lemma {:induction false} ChainStep(best: seq<int>, prev: seq<int>, n: int, i: int, boundary: seq<int>)
    requires Linked(best, prev, n) && 0 < i <= n && best[i] != UINT32_MAX
    ensures 0 <= prev[i] < i && best[prev[i]] != UINT32_MAX
    ensures Chain(prev, i) + Reversed(boundary) == Chain(prev, prev[i]) + Reversed(boundary + [i])
  {
    hide Reversed;
    assert Chain(prev, i) == Chain(prev, prev[i]) + [i];
    ReversedSnoc(boundary, i);
  }

  /** Collects the boundaries, last one first. */
  method CollectBounds(best: array<int>, prev: array<int>, n: int) returns (boundary: seq<int>)
    requires best.Length == prev.Length == n + 1 && 0 < n && Linked(best[..], prev[..], n)
    ensures Bounds(Reversed(boundary), n)
    ensures Reversed(boundary) == if best[n] == UINT32_MAX then [n] else Chain(prev[..], n)
  {
    boundary := [];
    if best[n] == UINT32_MAX {
      boundary := boundary + [n];
    } else {
      ghost var b, p := best[..], prev[..];
      ChainAscending(b, p, n, n);
      assert Bounds(Chain(p, n), n);
      hide Linked, Chain, Reversed;
      var i := n;
      assert Chain(p, n) == Chain(p, n) + Reversed([]) && Chain(p, 0) == [];
      while i > 0
        invariant 0 <= i <= n && b[i] != UINT32_MAX
        invariant Chain(p, n) == Chain(p, i) + Reversed(boundary)
      {
        ChainStep(b, p, n, i, boundary);
        boundary := boundary + [i];
        i := prev[i];
      }
      assert Reversed(boundary) == Chain(p, n);
    }
  }

  /** Code point indexes in ascending order. */
  ghost predicate Indexes(r: Range, bounds: seq<int>)
    requires ValidRange(r)
  {
    Ascending(bounds) && forall k :: 0 <= k < |bounds| ==> 0 <= bounds[k] <= |CodePoints(r)|
  }

  /** `x` is the native index of one of the first `k` boundaries, after the range start. */
  ghost predicate MarkedBy(r: Range, bounds: seq<int>, k: int, x: int)
    requires ValidRange(r) && Indexes(r, bounds) && k <= |bounds|
  {
    r.start < x && exists j :: 0 <= j < k && Position(r, bounds[j]) == x
  }

  /** The breaks for the first `k` boundaries. */
  ghost predicate Marked(r: Range, bounds: seq<int>, k: int, added: seq<int>)
    requires ValidRange(r) && Indexes(r, bounds) && 0 <= k <= |bounds|
  {
    && Ascending(added)
    && (forall x :: x in added <==> MarkedBy(r, bounds, k, x))
    && (forall j :: 0 <= j < |added| ==> 0 < k && added[j] <= Position(r, bounds[k - 1]))
    && (0 < k && r.start < Position(r, bounds[k - 1]) ==>
          added != [] && added[|added| - 1] == Position(r, bounds[k - 1]))
  }

  lemma MarkNext(r: Range, bounds: seq<int>, k: int, added: seq<int>)
    requires ValidRange(r) && Indexes(r, bounds) && 0 <= k < |bounds| && Marked(r, bounds, k, added)
    ensures var pos := Position(r, bounds[k]);
            var last := if k == 0 then -1 else Position(r, bounds[k - 1]);
            && r.start <= pos && last <= pos
            && Marked(r, bounds, k + 1, if last < pos && pos != r.start then added + [pos] else added)
  {
    PositionsOrdered(r);
    hide Position, CodePoints;
    var pos := Position(r, bounds[k]);
    assert 0 <= bounds[k] && r.start <= pos;
    if k > 0 { assert bounds[k - 1] < bounds[k]; }
    var last := if k == 0 then -1 else Position(r, bounds[k - 1]);
    var added' := if last < pos && pos != r.start then added + [pos] else added;
    forall x ensures x in added' <==> MarkedBy(r, bounds, k + 1, x) {
      MarkedStep(r, bounds, k, x);
    }
  }

  lemma MarkedStep(r: Range, bounds: seq<int>, k: int, x: int)
    requires ValidRange(r) && Indexes(r, bounds) && 0 <= k < |bounds|
    ensures MarkedBy(r, bounds, k + 1, x) <==> MarkedBy(r, bounds, k, x) || (r.start < x && x == Position(r, bounds[k]))
  {
    hide Position, CodePoints;
  }

  /** Appends the native indexes of the boundaries, given last one first. */
  method PushBreaks(r: Range, m: PositionMap, boundary: seq<int>, found: Vector)
    returns (count: int, ghost added: seq<int>)
    requires ValidRange(r) && Indexes(r, Reversed(boundary))
    requires m.Mapped? ==> |CodePoints(r)| < |m.at|
    requires forall k :: 0 <= k <= |CodePoints(r)| ==> At(m, r.start, k) == Position(r, k)
    modifies found
    ensures found.elements == old(found.elements) + added && count == |added|
    ensures Marked(r, Reversed(boundary), |boundary|, added)
  {
    hide Position, CodePoints, Marked, ValidRange;
    ghost var bounds := Reversed(boundary);
    var prevPos := -1;
    count, added := 0, [];
    var i := |boundary| - 1;
    assert Marked(r, bounds, 0, []) by { MarkNone(r, bounds); }
    while i >= 0
      invariant -1 <= i < |boundary|
      invariant found.elements == old(found.elements) + added && count == |added|
      invariant Marked(r, bounds, |boundary| - 1 - i, added)
      invariant prevPos == if i == |boundary| - 1 then -1 else Position(r, bounds[|boundary| - 2 - i])
    {
      ghost var k := |boundary| - 1 - i;
      MarkNext(r, bounds, k, added);
      assert bounds[k] == boundary[i];
      var pos := At(m, r.start, boundary[i]);
      if pos > prevPos {
        if pos != r.start {
          found.Push(pos);
          count := count + 1;
          added := added + [pos];
        }
      }
      prevPos := pos;
      i := i - 1;
    }
  }

  lemma MarkNone(r: Range, bounds: seq<int>)
    requires ValidRange(r) && Indexes(r, bounds)
    ensures Marked(r, bounds, 0, [])
  {
    hide Position, CodePoints;
  }

  /** The breaks inside the range: exactly the native indexes of the boundaries, each once and in order. */
  ghost predicate BreaksOf(r: Range, bounds: seq<int>, added: seq<int>)
    requires ValidRange(r) && Indexes(r, bounds)
  {
    && Ascending(added)
    && forall x :: x in added <==> r.start < x < r.end && exists j :: 0 <= j < |bounds| && Position(r, bounds[j]) == x
  }

  /** Leaving out the break at the range end; a boundary at the range start makes no difference. */
  lemma WithoutEnd(r: Range, bounds: seq<int>, all: seq<int>, added: seq<int>)
    requires ValidRange(r) && Bounds(bounds, |CodePoints(r)|) && Indexes(r, bounds)
    requires all == bounds || all == [0] + bounds
    requires Indexes(r, all) && Marked(r, all, |all|, added)
    ensures added != [] && added[|added| - 1] == r.end
    ensures BreaksOf(r, bounds, added[..|added| - 1])
  {
    PositionsOrdered(r);
    hide Position, CodePoints;
    var n := |CodePoints(r)|;
    assert all[|all| - 1] == n;
    var inside := added[..|added| - 1];
    forall x
      ensures x in inside <==>
                r.start < x < r.end && exists j :: 0 <= j < |bounds| && Position(r, bounds[j]) == x
    {
      SameMarks(r, bounds, all, x);
      assert x in inside <==> x in added && x != r.end by { LastOnce(added, x); }
      if x in added { assert x <= r.end; }
    }
  }

  lemma LastOnce(s: seq<int>, x: int)
    requires Ascending(s) && s != []
    ensures x in s[..|s| - 1] <==> x in s && x != s[|s| - 1]
  {
  }

  lemma SameMarks(r: Range, bounds: seq<int>, all: seq<int>, x: int)
    requires ValidRange(r) && Indexes(r, bounds) && Indexes(r, all) && (all == bounds || all == [0] + bounds)
    ensures MarkedBy(r, all, |all|, x) <==> MarkedBy(r, bounds, |bounds|, x)
  {
    hide Position, CodePoints, ValidRange;
    PositionsOrdered(r);
    if MarkedBy(r, bounds, |bounds|, x) {
      var j :| 0 <= j < |bounds| && Position(r, bounds[j]) == x;
      var j' := if all == bounds then j else j + 1;
      assert all[j'] == bounds[j];
    }
    if MarkedBy(r, all, |all|, x) {
      var j :| 0 <= j < |all| && Position(r, all[j]) == x;
      if all != bounds { assert j > 0 && all[j] == bounds[j - 1]; }
    }
  }

  /** What the dictionary finds in any text. */
  type Dictionary = seq<int> -> seq<seq<Word>>

  ghost predicate ValidDictionary(dictionary: Dictionary) { forall text :: ValidMatches(text, dictionary(text)) }

  /** `bounds` are the word ends of a cheapest segmentation, or only the end of the text if there is none. */
  ghost predicate Cheapest(text: seq<int>, dict: seq<seq<Word>>, bounds: seq<int>)
    requires ValidMatches(text, dict)
  {
    if Segmentable(text, dict) then exists path :: CheapestTo(text, dict, path, |text|) && Ends(path) == bounds
    else bounds == [|text|]
  }

  lemma ChainIsCheapest(text: seq<int>, dict: seq<seq<Word>>, best: seq<int>, prev: seq<int>)
    requires ValidMatches(text, dict) && Progress(text, dict, best, prev, |text|, 0) && Harmless(text, dict)
    ensures Cheapest(text, dict, if best[|text|] == UINT32_MAX then [|text|] else Chain(prev, |text|))
  {
    MinimumCost(text, dict, best, prev);
    hide ValidMatches, Segmentable, CheapestTo, Harmless, Progress;
  }

  /** Segments the text and gives the boundaries, last one first. */
  method Segment(text: seq<int>, dictionary: Dictionary) returns (boundary: seq<int>)
    requires ValidDictionary(dictionary) && text != []
    ensures Bounds(Reversed(boundary), |text|)
    ensures Harmless(text, dictionary(text)) ==> Cheapest(text, dictionary(text), Reversed(boundary))
  {
    assert ValidMatches(text, dictionary(text));
    hide ValidMatches, Progress, Linked, Bounds, Harmless, Cheapest;
    var best, prev := BestSegmentation(text, dictionary(text));
    ProgressLinked(text, dictionary(text), best[..], prev[..]);
    LinkedLength(best[..], prev[..], |text|);
    assert best[..][|text|] == best[|text|];
    boundary := CollectBounds(best, prev, |text|);
    if Harmless(text, dictionary(text)) {
      ChainIsCheapest(text, dictionary(text), best[..], prev[..]);
    }
  }

  lemma LinkedLength(best: seq<int>, prev: seq<int>, n: int)
    requires Linked(best, prev, n)
    ensures |best| == |prev| == n + 1
  {
  }

  lemma BoundsAreIndexes(r: Range, bounds: seq<int>)
    requires ValidRange(r) && Bounds(bounds, |CodePoints(r)|)
    ensures Indexes(r, bounds) && Indexes(r, [0] + bounds)
  {
    hide CodePoints;
    var n := |bounds|;
    assert forall k :: 0 <= k < n - 1 ==> bounds[k] < bounds[n - 1];
  }

  /** Appends the breaks of the boundaries and takes back the one at the end of the range. */
  method AddBreaks(r: Range, m: PositionMap, boundary: seq<int>, ghost bounds: seq<int>, found: Vector)
    returns (count: int)
    requires ValidRange(r) && Bounds(bounds, |CodePoints(r)|) && Indexes(r, bounds) && Indexes(r, Reversed(boundary))
    requires Reversed(boundary) == bounds || Reversed(boundary) == [0] + bounds
    requires m.Mapped? ==> |CodePoints(r)| < |m.at|
    requires forall k :: 0 <= k <= |CodePoints(r)| ==> At(m, r.start, k) == Position(r, k)
    modifies found
    ensures 0 <= count == |found.elements| - |old(found.elements)| && old(found.elements) <= found.elements
    ensures BreaksOf(r, bounds, found.elements[|found.elements| - count..])
  {
    hide ValidRange, Bounds, Indexes, Marked, Position, CodePoints, BreaksOf;
    ghost var added;
    count, added := PushBreaks(r, m, boundary, found);
    WithoutEnd(r, bounds, Reversed(boundary), added);
    ConcatLast(old(found.elements), added);
    if found.elements != [] && found.Peek() == r.end {
      var x := found.Pop();
      count := count - 1;
    }
    assert found.elements == old(found.elements) + added[..|added| - 1];
    assert found.elements[|found.elements| - count..] == added[..|added| - 1];
  }

  /**
   Finds the word breaks in a range and appends them to those found before it. The breaks are the native
   indexes of the boundaries, strictly ascending and strictly inside the range, and are counted.
   */
  method DivideUpDictionaryRange(r: Range, dictionary: Dictionary, found: Vector, failure: bool)
    returns (count: int, ghost bounds: seq<int>)
    requires r.start < r.end ==> ValidRange(r) && ValidDictionary(dictionary)
    modifies found
    ensures failure || r.start >= r.end ==> count == 0 && found.elements == old(found.elements)
    ensures !failure && r.start < r.end ==>
              && Bounds(bounds, |CodePoints(r)|) && Indexes(r, bounds)
              && (Harmless(CodePoints(r), dictionary(CodePoints(r))) ==>
                    Cheapest(CodePoints(r), dictionary(CodePoints(r)), bounds))
              && old(found.elements) <= found.elements
              && BreaksOf(r, bounds, found.elements[|old(found.elements)|..])
              && count == |found.elements| - |old(found.elements)|
              && (Unsplittable(CodePoints(r), dictionary(CodePoints(r))) ==> count == 0)
  {
    hide ValidMatches, Bounds, Harmless, Indexes, Position, BreaksOf, Cheapest, Unsplittable;
    count, bounds := 0, [];
    if failure || r.start >= r.end {
      return;
    }
    PositionsOrdered(r);
    var s, m := MapRange(r);
    var text := DecodeText(s);
    var boundary := Segment(text, dictionary);
    bounds := Reversed(boundary);
    BoundsAreIndexes(r, bounds);
    if found.elements == [] || found.Peek() < r.start {
      assert Reversed(boundary + [0]) == [0] + bounds;
      boundary := boundary + [0];
    }
    count := AddBreaks(r, m, boundary, bounds, found);
    assert found.elements[|old(found.elements)|..] == found.elements[|found.elements| - count..];
    NoneInside(r, dictionary, bounds, found.elements[|old(found.elements)|..]);
  }

  /** Hangul syllables without any dictionary word get no break. */
  lemma NoneInside(r: Range, dictionary: Dictionary, bounds: seq<int>, added: seq<int>)
    requires ValidRange(r) && ValidDictionary(dictionary) && Indexes(r, bounds) && BreaksOf(r, bounds, added)
    requires var text, dict := CodePoints(r), dictionary(CodePoints(r));
             ValidMatches(text, dict) && (Harmless(text, dict) ==> Cheapest(text, dict, bounds))
    ensures Unsplittable(CodePoints(r), dictionary(CodePoints(r))) ==> added == []
  {
    hide ValidRange, CodePoints, Position, Harmless, Unsplittable, Ascending, IsPath;
    var text, dict := CodePoints(r), dictionary(CodePoints(r));
    if Unsplittable(text, dict) {
      LeftTogether(text, dict);
      OnlyEnd(r, bounds, added);
    }
  }

  lemma OnlyEnd(r: Range, bounds: seq<int>, added: seq<int>)
    requires ValidRange(r) && Indexes(r, bounds) && BreaksOf(r, bounds, added) && bounds == [|CodePoints(r)|]
    ensures added == []
  {
    hide ValidRange, CodePoints, Position;
    PositionsOrdered(r);
    forall x ensures x !in added {
      var inside := exists j :: 0 <= j < |bounds| && Position(r, bounds[j]) == x;
      assert inside ==> Position(r, bounds[0]) == x;
    }
    var first := if |added| > 0 then added[0] else 0;
    assert first !in added;
  }

  method DecodeText(s: seq<Unit16>) returns (text: seq<int>)
    ensures text == Decode(s, 0)
  {
    text := [];
    var i := 0;
    while i < |s|
      invariant 0 <= i <= |s| && text + Decode(s, i) == Decode(s, 0)
    {
      text := text + [CodePointAt(s, i)];
      i := NextIndex(s, i);
    }
  }

  /** Breaks found before the range stay below the new ones. */
  lemma BreaksStayAscending(r: Range, bounds: seq<int>, before: seq<int>, added: seq<int>)
    requires ValidRange(r) && Indexes(r, bounds) && BreaksOf(r, bounds, added)
    requires Ascending(before) && (before != [] ==> before[|before| - 1] <= r.start)
    ensures Ascending(before + added)
  {
    hide Position, CodePoints;
    forall j, k | 0 <= j < |before| && 0 <= k < |added| ensures before[j] < added[k] {
      assert added[k] in added;
      assert before[j] <= before[|before| - 1];
    }
  }
}
