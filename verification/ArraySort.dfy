/**
 Sorting an array of weighted locales in place: insertion sort with binary search for short stretches,
 quicksort for longer ones.
 */
module ArraySort {
  import opened Basics

  /** A locale with its weight in thousandths; the index makes the order total. */
  datatype Entry = Entry(locale: Option<string>, weight: int, index: int)

  const MIN_QSORT := 9

  /** By descending weight, then by ascending index. */
  function Compare(x: Entry, y: Entry): int {
    if y.weight - x.weight != 0 then y.weight - x.weight else x.index - y.index
  }

  predicate AtMost(x: Entry, y: Entry) { Compare(x, y) <= 0 }

  lemma Transitive(x: Entry, y: Entry, z: Entry)
    requires AtMost(x, y) && AtMost(y, z)
    ensures AtMost(x, z)
  {
  }

  lemma Total(x: Entry, y: Entry)
    ensures AtMost(x, y) || AtMost(y, x)
    ensures Compare(x, y) < 0 <==> !AtMost(y, x)
    ensures AtMost(x, x)
  {
  }

  ghost predicate Sorted(s: seq<Entry>, lo: int, hi: int)
    requires 0 <= lo <= hi <= |s|
  {
    forall p, q :: lo <= p < q < hi ==> AtMost(s[p], s[q])
  }

  /** `t` has the same entries as `s` between `lo` and `hi`, and is equal to it elsewhere. */
  ghost predicate Rearranged(s: seq<Entry>, t: seq<Entry>, lo: int, hi: int)
    requires 0 <= lo <= hi <= |s|
  {
    && |t| == |s| && t[..lo] == s[..lo] && t[hi..] == s[hi..] && multiset(t[lo..hi]) == multiset(s[lo..hi])
  }

  lemma RearrangedTwice(s: seq<Entry>, t: seq<Entry>, u: seq<Entry>, lo: int, hi: int)
    requires 0 <= lo <= hi <= |s| && Rearranged(s, t, lo, hi) && Rearranged(t, u, lo, hi)
    ensures Rearranged(s, u, lo, hi)
  {
  }

  /** Rearranging a part rearranges the whole. */
  lemma RearrangedPart(s: seq<Entry>, t: seq<Entry>, lo: int, from: int, to: int, hi: int)
    requires 0 <= lo <= from <= to <= hi <= |s| && Rearranged(s, t, from, to)
    ensures Rearranged(s, t, lo, hi)
  {
    assert s[lo..hi] == s[lo..from] + s[from..to] + s[to..hi];
    assert t[lo..hi] == t[lo..from] + t[from..to] + t[to..hi];
    assert s[lo..from] == s[..from][lo..] && t[lo..from] == t[..from][lo..];
    assert s[to..hi] == s[to..][..hi - to] && t[to..hi] == t[to..][..hi - to];
    assert s[..lo] == s[..from][..lo] && t[..lo] == t[..from][..lo];
    assert s[hi..] == s[to..][hi - to..] && t[hi..] == t[to..][hi - to..];
  }

  /** An entry of the rearranged part was there before. */
  lemma RearrangedEntry(s: seq<Entry>, t: seq<Entry>, lo: int, hi: int, q: int) returns (p: int)
    requires 0 <= lo <= hi <= |s| && Rearranged(s, t, lo, hi) && lo <= q < hi
    ensures lo <= p < hi && t[q] == s[p]
  {
    assert t[q] == t[lo..hi][q - lo];
    assert t[q] in multiset(t[lo..hi]);
    assert t[q] in s[lo..hi];
    var k :| 0 <= k < |s[lo..hi]| && s[lo..hi][k] == t[q];
    p := lo + k;
  }

  lemma RearrangedElsewhere(s: seq<Entry>, t: seq<Entry>, lo: int, hi: int, q: int)
    requires 0 <= lo <= hi <= |s| && Rearranged(s, t, lo, hi) && 0 <= q < |s| && !(lo <= q < hi)
    ensures t[q] == s[q]
  {
    if q < lo { assert s[q] == s[..lo][q] && t[q] == t[..lo][q]; }
    else { assert s[q] == s[hi..][q - hi] && t[q] == t[hi..][q - hi]; }
  }

  // ----- insertion sort

  /** Position after the last entry of a[start..limit] that is not greater than the item. */
  method BinarySearch(a: array<Entry>, from: int, to: int, item: Entry) returns (insertionPoint: int)
    requires 0 <= from <= to <= a.Length && Sorted(a[..], from, to)
    ensures from <= insertionPoint <= to
    ensures forall k :: from <= k < insertionPoint ==> AtMost(a[k], item)
    ensures forall k :: insertionPoint <= k < to ==> !AtMost(a[k], item)
  {
    var start, limit := from, to;
    while limit - start >= MIN_QSORT
      invariant from <= start <= limit <= to
      invariant forall k :: from <= k < start ==> AtMost(a[k], item)
      invariant forall k :: limit <= k < to ==> !AtMost(a[k], item)
      decreases limit - start
    {
      var i := (start + limit) / 2;
      var diff := Compare(item, a[i]);
      assert forall k :: from <= k < i ==> AtMost(a[..][k], a[..][i]);
      assert forall k :: i < k < to ==> AtMost(a[..][i], a[..][k]);
      if diff == 0 {
        start := i + 1;
      } else if diff < 0 {
        limit := i;
      } else {
        start := i;
      }
    }
    while start < limit
      invariant from <= start <= limit <= to
      invariant forall k :: from <= k < start ==> AtMost(a[k], item)
      invariant forall k :: limit <= k < to ==> !AtMost(a[k], item)
    {
      var diff := Compare(item, a[start]);
      if diff < 0 {
        assert forall k :: start < k < to ==> AtMost(a[..][start], a[..][k]);
        break;
      }
      start := start + 1;
    }
    return start;
  }

  /** Entry `j` moved to position `i`, the ones between shifted by one. */
  ghost function Moved(s: seq<Entry>, i: int, j: int): seq<Entry>
    requires 0 <= i <= j < |s|
  {
    s[..i] + [s[j]] + s[i..j] + s[j + 1..]
  }

  lemma MovedRearranged(s: seq<Entry>, lo: int, i: int, j: int)
    requires 0 <= lo <= i <= j < |s|
    ensures Rearranged(s, Moved(s, i, j), i, j + 1) && Rearranged(s, Moved(s, i, j), lo, j + 1)
  {
    var t := Moved(s, i, j);
    assert t[i..j + 1] == [s[j]] + s[i..j];
    assert s[i..j + 1] == s[i..j] + [s[j]];
    assert t[..i] == s[..i] && t[j + 1..] == s[j + 1..];
    RearrangedPart(s, t, lo, i, j + 1, j + 1);
  }

  lemma MovedSorted(s: seq<Entry>, lo: int, i: int, j: int)
    requires 0 <= lo <= i <= j < |s| && Sorted(s, lo, j)
    requires forall k :: lo <= k < i ==> AtMost(s[k], s[j])
    requires forall k :: i <= k < j ==> !AtMost(s[k], s[j])
    ensures Sorted(Moved(s, i, j), lo, j + 1)
  {
    hide Compare;
    var t := Moved(s, i, j);
    forall k | lo <= k < j ensures AtMost(s[k], s[j]) || AtMost(s[j], s[k]) { Total(s[k], s[j]); }
    assert forall k :: lo <= k < i ==> t[k] == s[k];
    assert t[i] == s[j];
    assert forall k :: i < k <= j ==> t[k] == s[k - 1];
  }

  method Insert(a: array<Entry>, i: int, j: int)
    requires 0 <= i <= j < a.Length
    modifies a
    ensures a[..] == Moved(old(a[..]), i, j)
  {
    if i < j {
      var v := a[j];
      forall k | i < k <= j {
        a[k] := a[k - 1];
      }
      a[i] := v;
    }
  }

  method InsertionSort(a: array<Entry>, start: int, limit: int)
    requires 0 <= start <= limit <= a.Length
    modifies a
    ensures Rearranged(old(a[..]), a[..], start, limit) && Sorted(a[..], start, limit)
  {
    var j := start + 1;
    if j > limit {
      return;
    }
    hide AtMost, Rearranged;
    RearrangedNone(a[..], start, limit);
    while j < limit
      invariant start < j <= limit && Sorted(a[..], start, j) && Rearranged(old(a[..]), a[..], start, limit)
    {
      ghost var s := a[..];
      InsertNext(a, start, j, limit);
      RearrangedTwice(old(a[..]), s, a[..], start, limit);
      j := j + 1;
    }
  }

  /** Moves the next entry to its place among those before it. */
  method InsertNext(a: array<Entry>, start: int, j: int, ghost limit: int)
    requires 0 <= start <= j < limit <= a.Length && Sorted(a[..], start, j)
    modifies a
    ensures Rearranged(old(a[..]), a[..], start, limit) && Sorted(a[..], start, j + 1)
  {
    hide AtMost, Moved, Rearranged, Sorted;
    ghost var s := a[..];
    var i := BinarySearch(a, start, j, a[j]);
    MovedSorted(s, start, i, j);
    MovedRearranged(s, start, i, j);
    Insert(a, i, j);
    RearrangedPart(s, a[..], start, start, j + 1, limit);
  }

  lemma RearrangedNone(s: seq<Entry>, lo: int, hi: int)
    requires 0 <= lo <= hi <= |s|
    ensures Rearranged(s, s, lo, hi)
  {
  }

  // ----- quicksort

  /** Entries up to `left` are at most the pivot, those from `right` on at least the pivot. */
  ghost predicate Split(s: seq<Entry>, x: Entry, start: int, left: int, right: int, limit: int)
    requires 0 <= start <= limit <= |s|
  {
    && start <= left <= limit && start <= right <= limit
    && (forall k :: start <= k < left ==> AtMost(s[k], x))
    && (forall k :: right <= k < limit ==> AtMost(x, s[k]))
  }

  ghost function Swapped(s: seq<Entry>, i: int, j: int): seq<Entry>
    requires 0 <= i < |s| && 0 <= j < |s|
  {
    s[i := s[j]][j := s[i]]
  }

  lemma EndsSwapped(x: Entry, mid: seq<Entry>, y: Entry)
    ensures multiset([x] + mid + [y]) == multiset([y] + mid + [x])
  {
  }

  lemma SwappedInside(s: seq<Entry>, i: int, j: int)
    requires 0 <= i < j < |s|
    ensures var t := Swapped(s, i, j);
            t[..i] == s[..i] && t[j + 1..] == s[j + 1..] && t[i..j + 1] == [s[j]] + s[i + 1..j] + [s[i]]
  {
  }

  lemma SwappedBetween(s: seq<Entry>, i: int, j: int)
    requires 0 <= i < j < |s|
    ensures Rearranged(s, Swapped(s, i, j), i, j + 1)
  {
    SwappedInside(s, i, j);
    assert s[i..j + 1] == [s[i]] + s[i + 1..j] + [s[j]];
    EndsSwapped(s[i], s[i + 1..j], s[j]);
  }

  lemma SwappedRearranged(s: seq<Entry>, i: int, j: int, lo: int, hi: int)
    requires 0 <= lo <= i < j < hi <= |s|
    ensures Rearranged(s, Swapped(s, i, j), lo, hi)
  {
    hide Swapped, Rearranged;
    SwappedBetween(s, i, j);
    RearrangedPart(s, Swapped(s, i, j), lo, i, j + 1, hi);
  }

  method ScanLeft(a: array<Entry>, x: Entry, left: int, ghost stop: int) returns (left': int)
    requires 0 <= left <= stop < a.Length && AtMost(x, a[stop])
    ensures left <= left' <= stop && AtMost(x, a[left'])
    ensures forall k :: left <= k < left' ==> AtMost(a[k], x)
  {
    left' := left;
    while Compare(a[left'], x) < 0
      invariant left <= left' <= stop
      invariant forall k :: left <= k < left' ==> AtMost(a[k], x)
      decreases stop - left'
    {
      Total(a[left'], x);
      left' := left' + 1;
    }
    Total(a[left'], x);
  }

  method ScanRight(a: array<Entry>, x: Entry, right: int, ghost stop: int) returns (right': int)
    requires 0 <= stop < right <= a.Length && AtMost(a[stop], x)
    ensures stop < right' <= right && AtMost(a[right' - 1], x)
    ensures forall k :: right' <= k < right ==> AtMost(x, a[k])
  {
    right' := right;
    while Compare(x, a[right' - 1]) < 0
      invariant stop < right' <= right
      invariant forall k :: right' <= k < right ==> AtMost(x, a[k])
      decreases right'
    {
      Total(x, a[right' - 1]);
      right' := right' - 1;
    }
    Total(x, a[right' - 1]);
  }

  /** Exchanges two entries on the wrong sides, if any are left, and moves the borders past them. */
  method Exchange(a: array<Entry>, ghost x: Entry, ghost start: int, left: int, right: int, ghost limit: int)
    returns (left': int, right': int)
    requires 0 <= start <= left <= right <= limit <= a.Length && Split(a[..], x, start, left, right, limit)
    requires left < right ==> AtMost(x, a[left]) && AtMost(a[right - 1], x)
    modifies a
    ensures Rearranged(old(a[..]), a[..], start, limit) && Split(a[..], x, start, left', right', limit)
    ensures left == right ==> left' == right' == left
    ensures left < right ==> left < left' && right' < right
    ensures left' <= right' + 1
  {
    hide AtMost, Rearranged, Split;
    left', right' := left, right;
    ghost var s := a[..];
    RearrangedNone(s, start, limit);
    if left < right {
      right' := right - 1;
      if left < right' {
        SwappedRearranged(s, left, right', start, limit);
        a[left], a[right'] := a[right'], a[left];
        assert a[..] == Swapped(s, left, right');
      }
      left' := left + 1;
      SwappedSplit(s, a[..], x, start, left, right, limit);
    }
  }

  lemma SwappedSplit(s: seq<Entry>, t: seq<Entry>, x: Entry, start: int, left: int, right: int, limit: int)
    requires 0 <= start <= left < right <= limit <= |s| && Split(s, x, start, left, right, limit)
    requires AtMost(x, s[left]) && AtMost(s[right - 1], x)
    requires t == if left < right - 1 then Swapped(s, left, right - 1) else s
    ensures Split(t, x, start, left + 1, right - 1, limit)
  {
    hide AtMost;
  }

  /** Moves entries that are at most the pivot to the front and those that are at least the pivot to the back. */
  method Partition(a: array<Entry>, start: int, limit: int) returns (left: int, right: int, ghost x: Entry)
    requires 0 <= start < limit <= a.Length
    modifies a
    ensures Rearranged(old(a[..]), a[..], start, limit) && Split(a[..], x, start, left, right, limit)
    ensures start < left && right < limit && right <= left <= right + 1
  {
    left, right := start, limit;
    var middle := (start + limit) / 2;
    x := a[middle];
    var pivot := a[middle];
    RearrangedNone(a[..], start, limit);
    assert AtMost(x, x);
    hide Rearranged, AtMost;
    var more := true;
    while more
      invariant start <= left <= right + 1 && right <= limit
      invariant Split(a[..], x, start, left, right, limit) && Rearranged(old(a[..]), a[..], start, limit)
      invariant (left == start && right == limit && a[middle] == x && more) || (start < left && right < limit)
      invariant more <==> left < right
      decreases right - left
    {
      ghost var s := a[..];
      ghost var first := left == start;
      assert !first ==> AtMost(s[left - 1], x) && AtMost(x, s[right]);
      left := ScanLeft(a, pivot, left, if first then middle else right);
      right := ScanRight(a, pivot, right, if first then middle else left - 1);
      left, right := Exchange(a, x, start, left, right, limit);
      RearrangedTwice(old(a[..]), s, a[..], start, limit);
      more := left < right;
    }
  }

  /** Entries are in order unless both are between `b` and `c` or both are between `d` and `e`. */
  ghost predicate OrderedBut(s: seq<Entry>, lo: int, hi: int, b: int, c: int, d: int, e: int)
    requires 0 <= lo <= hi <= |s|
  {
    forall p, q :: lo <= p < q < hi && !(b <= p && q < c) && !(d <= p && q < e) ==> AtMost(s[p], s[q])
  }

  /** Rearranging one of the unordered parts changes nothing for the rest. */
  lemma RearrangedOrder(s: seq<Entry>, t: seq<Entry>, lo: int, hi: int, b: int, c: int, d: int, e: int)
    requires 0 <= lo <= b <= c <= hi <= |s| && (c <= d <= e <= hi || lo <= d <= e <= b)
    requires OrderedBut(s, lo, hi, b, c, d, e) && Rearranged(s, t, b, c)
    ensures |t| == |s| && OrderedBut(t, lo, hi, b, c, d, e)
  {
    hide AtMost;
    assert |t| == |s|;
    forall p, q | lo <= p < q < hi && !(b <= p && q < c) && !(d <= p && q < e) ensures AtMost(t[p], t[q]) {
      var p', q' := p, q;
      if b <= p < c { p' := RearrangedEntry(s, t, b, c, p); } else { RearrangedElsewhere(s, t, b, c, p); }
      if b <= q < c { q' := RearrangedEntry(s, t, b, c, q); } else { RearrangedElsewhere(s, t, b, c, q); }
      assert AtMost(s[p'], s[q']);
    }
  }

  lemma SplitOrder(s: seq<Entry>, x: Entry, lo: int, hi: int, start: int, left: int, right: int, limit: int)
    requires 0 <= lo <= start <= limit <= hi <= |s| && Split(s, x, start, left, right, limit) && right <= left
    requires OrderedBut(s, lo, hi, start, limit, hi, hi)
    ensures OrderedBut(s, lo, hi, start, right, left, limit)
  {
    hide AtMost;
    forall p, q | lo <= p < q < hi && !(start <= p && q < right) && !(left <= p && q < limit)
      ensures AtMost(s[p], s[q])
    {
      if start <= p && q < limit { Transitive(s[p], x, s[q]); }
    }
  }

  /** Sorting one of the two unordered parts leaves only the other one. */
  lemma PartSorted(s: seq<Entry>, lo: int, hi: int, b: int, c: int, d: int, e: int)
    requires 0 <= lo <= b <= c <= hi <= |s| && OrderedBut(s, lo, hi, b, c, d, e) && Sorted(s, b, c)
    ensures OrderedBut(s, lo, hi, d, e, hi, hi) && OrderedBut(s, lo, hi, d, e, b, b)
  {
    hide AtMost;
  }

  lemma OrderedSwap(s: seq<Entry>, lo: int, hi: int, b: int, c: int, d: int, e: int)
    requires 0 <= lo <= hi <= |s| && OrderedBut(s, lo, hi, b, c, d, e)
    ensures OrderedBut(s, lo, hi, d, e, b, c)
  {
    hide AtMost;
  }

  /** Sorts one part of a range in which everything else is in order, except another part. */
  method SortPart(a: array<Entry>, ghost lo: int, ghost hi: int, b: int, c: int, ghost d: int, ghost e: int)
    requires 0 <= lo <= b <= c <= hi <= a.Length && (c <= d <= e <= hi || lo <= d <= e <= b)
    requires OrderedBut(a[..], lo, hi, b, c, d, e)
    modifies a
    ensures Rearranged(old(a[..]), a[..], lo, hi) && OrderedBut(a[..], lo, hi, d, e, hi, hi)
    decreases c - b, 1
  {
    ghost var s := a[..];
    if b < c - 1 {
      SubQuickSort(a, b, c);
    } else {
      RearrangedNone(s, b, c);
    }
    RearrangedOrder(s, a[..], lo, hi, b, c, d, e);
    PartSorted(a[..], lo, hi, b, c, d, e);
    RearrangedPart(s, a[..], lo, b, c, hi);
  }

  /** Sorts a range: recursion for the smaller part, the loop goes on with the larger one. */
  method SubQuickSort(a: array<Entry>, lo: int, hi: int)
    requires 0 <= lo <= hi <= a.Length
    modifies a
    ensures Rearranged(old(a[..]), a[..], lo, hi) && Sorted(a[..], lo, hi)
    decreases hi - lo, 0
  {
    hide Rearranged, AtMost;
    var start, limit := lo, hi;
    RearrangedNone(a[..], lo, hi);
    var more := true;
    while more
      invariant lo <= start <= limit <= hi && (!more ==> limit - start <= 1)
      invariant Rearranged(old(a[..]), a[..], lo, hi) && OrderedBut(a[..], lo, hi, start, limit, hi, hi)
      decreases limit - start, more
    {
      ghost var s := a[..];
      if start + MIN_QSORT >= limit {
        InsertionSort(a, start, limit);
        RearrangedOrder(s, a[..], lo, hi, start, limit, hi, hi);
        RearrangedPart(s, a[..], lo, start, limit, hi);
        RearrangedTwice(old(a[..]), s, a[..], lo, hi);
        PartSorted(a[..], lo, hi, start, limit, hi, hi);
        break;
      }
      var left, right;
      ghost var x;
      left, right, x := Partition(a, start, limit);
      RearrangedOrder(s, a[..], lo, hi, start, limit, hi, hi);
      RearrangedPart(s, a[..], lo, start, limit, hi);
      RearrangedTwice(old(a[..]), s, a[..], lo, hi);
      SplitOrder(a[..], x, lo, hi, start, left, right, limit);
      s := a[..];
      if right - start < limit - left {
        SortPart(a, lo, hi, start, right, left, limit);
        start := left;
      } else {
        OrderedSwap(a[..], lo, hi, start, right, left, limit);
        SortPart(a, lo, hi, left, limit, start, right);
        limit := right;
      }
      RearrangedTwice(old(a[..]), s, a[..], lo, hi);
      more := start < limit - 1;
    }
  }

  /** Sorts the whole array: the entries stay the same, and are in order. */
  method SortArray(a: array<Entry>, length: int)
    requires 0 <= length <= a.Length
    modifies a
    ensures Rearranged(old(a[..]), a[..], 0, length) && Sorted(a[..], 0, length)
  {
    if length <= 1 {
      return;
    } else if length < MIN_QSORT {
      InsertionSort(a, 0, length);
    } else {
      SubQuickSort(a, 0, length);
    }
  }
}
