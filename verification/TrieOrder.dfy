/**
 Order of the pairs in a trie, and what is left of them after matching a byte.
 */
module TrieOrder {
  import opened Basics
  import opened TrieFormat

  /** Unsigned lexicographic order; a proper prefix comes first. */
  predicate Before(a: seq<Byte>, b: seq<Byte>) {
    b != [] && (a == [] || a[0] < b[0] || (a[0] == b[0] && Before(a[1..], b[1..])))
  }

  ghost predicate Ascending(es: seq<Entry>) {
    forall i, j :: 0 <= i < j < |es| ==> Before(es[i].key, es[j].key)
  }

  /** Every branch below node `p` has its edges in ascending order, and split bytes between the halves. */
  predicate NodeSorted(s: seq<Byte>, p: int)
    requires NodeOk(s, p)
    decreases |s| - p
  {
    if MIN_VALUE_LEAD <= s[p] then IsFinal(s[p]) || NodeSorted(s, AfterValue(s, p))
    else if MIN_LINEAR_MATCH <= s[p] then NodeSorted(s, AfterLinear(s, p))
    else BranchSorted(s, BranchStart(s, p), BranchLength(s, p), 0, 0x100)
  }

  /** Edges of a branch are at least `lo`, less than `hi` and ascending. */
  predicate BranchSorted(s: seq<Byte>, p: int, length: nat, lo: int, hi: int)
    requires BranchOk(s, p, length)
    decreases |s| - p
  {
    if length > MAX_BRANCH_LINEAR_SUB_NODE_LENGTH then
      && lo <= s[p] <= hi
      && BranchSorted(s, JumpByDelta(s, p + 1), length / 2, lo, s[p])
      && BranchSorted(s, SkipDelta(s, p + 1), length - length / 2, s[p], hi)
    else if length > 1 then
      && lo <= s[p] < hi
      && (IsFinal(s[p + 1]) || NodeSorted(s, EdgeTarget(s, p)))
      && BranchSorted(s, AfterValue(s, p + 1), length - 1, s[p] as int + 1, hi)
    else lo <= s[p] < hi && NodeSorted(s, p + 1)
  }

  /** All keys have a first byte, and it is in the given range. */
  ghost predicate FirstBytes(es: seq<Entry>, lo: int, hi: int) {
    forall k :: 0 <= k < |es| ==> es[k].key != [] && lo <= es[k].key[0] < hi
  }

  lemma FirstBytesConcat(es: seq<Entry>, fs: seq<Entry>, lo: int, mid: int, mid': int, hi: int)
    requires FirstBytes(es, lo, mid) && FirstBytes(fs, mid', hi) && lo <= mid' && mid <= hi
    ensures FirstBytes(es + fs, lo, hi)
  {
  }

  lemma AscendingConcat(es: seq<Entry>, fs: seq<Entry>, lo: int, mid: int, hi: int)
    requires Ascending(es) && Ascending(fs) && FirstBytes(es, lo, mid) && FirstBytes(fs, mid, hi)
    ensures Ascending(es + fs)
  {
  }

  lemma BeforePrefixed(prefix: seq<Byte>, a: seq<Byte>, b: seq<Byte>)
    requires Before(a, b)
    ensures Before(prefix + a, prefix + b)
  {
    if prefix == [] {
      assert prefix + a == a && prefix + b == b;
    } else {
      BeforePrefixed(prefix[1..], a, b);
      assert (prefix + a)[1..] == prefix[1..] + a && (prefix + b)[1..] == prefix[1..] + b;
    }
  }

  lemma AscendingPrefixed(prefix: seq<Byte>, es: seq<Entry>)
    requires Ascending(es)
    ensures Ascending(Prefixed(prefix, es))
  {
    var r := Prefixed(prefix, es);
    forall i, j | 0 <= i < j < |r| ensures Before(r[i].key, r[j].key) {
      BeforePrefixed(prefix, es[i].key, es[j].key);
    }
  }

  lemma PrefixedFirstBytes(b: Byte, es: seq<Entry>)
    ensures FirstBytes(Prefixed([b], es), b, b as int + 1)
  {
  }

  /** A node that is no value has only keys with a first byte. */
  lemma {:induction false} NoValueFirstBytes(s: seq<Byte>, p: int)
    requires NodeOk(s, p) && NodeSorted(s, p) && s[p] < MIN_VALUE_LEAD
    ensures FirstBytes(Entries(s, p), 0, 0x100)
    decreases |s| - p
  {
    if MIN_LINEAR_MATCH <= s[p] {
      var m := s[p + 1..AfterLinear(s, p)];
      assert m != [];
      assert forall k :: 0 <= k < |Entries(s, p)| ==> m <= Entries(s, p)[k].key;
    } else {
      BranchAscending(s, BranchStart(s, p), BranchLength(s, p), 0, 0x100);
    }
  }

  /** The pairs of a node are in strictly ascending order, so no string occurs twice. */
  lemma {:induction false} EntriesAscending(s: seq<Byte>, p: int)
    requires NodeOk(s, p) && NodeSorted(s, p)
    ensures Ascending(Entries(s, p))
    decreases |s| - p
  {
    if MIN_VALUE_LEAD <= s[p] {
      if !IsFinal(s[p]) {
        EntriesAscending(s, AfterValue(s, p));
        NoValueFirstBytes(s, AfterValue(s, p));
      }
    } else if MIN_LINEAR_MATCH <= s[p] {
      EntriesAscending(s, AfterLinear(s, p));
      AscendingPrefixed(s[p + 1..AfterLinear(s, p)], Entries(s, AfterLinear(s, p)));
    } else {
      BranchAscending(s, BranchStart(s, p), BranchLength(s, p), 0, 0x100);
    }
  }

  lemma {:induction false} BranchAscending(s: seq<Byte>, p: int, length: nat, lo: int, hi: int)
    requires BranchOk(s, p, length) && BranchSorted(s, p, length, lo, hi)
    ensures Ascending(BranchEntries(s, p, length)) && FirstBytes(BranchEntries(s, p, length), lo, hi)
    decreases |s| - p
  {
    hide BranchEntries, Ascending, FirstBytes, EdgeEntries;
    if length > MAX_BRANCH_LINEAR_SUB_NODE_LENGTH {
      SplitParts(s, p, length);
      BranchAscending(s, JumpByDelta(s, p + 1), length / 2, lo, s[p]);
      BranchAscending(s, SkipDelta(s, p + 1), length - length / 2, s[p], hi);
      SplitAscending(s, p, length, lo, hi);
    } else if length > 1 {
      EdgeParts(s, p, length);
      EdgeAscending(s, p, length);
      BranchAscending(s, AfterValue(s, p + 1), length - 1, s[p] as int + 1, hi);
      EdgesAscending(s, p, length, lo, hi);
    } else {
      EntriesAscending(s, p + 1);
      LastEdgeAscending(s, p, lo, hi);
    }
  }

  /** The two halves of a long branch follow each other. */
  lemma SplitAscending(s: seq<Byte>, p: int, length: nat, lo: int, hi: int)
    requires BranchOk(s, p, length) && length > MAX_BRANCH_LINEAR_SUB_NODE_LENGTH
    requires var l := BranchEntries(s, JumpByDelta(s, p + 1), length / 2); Ascending(l) && FirstBytes(l, lo, s[p])
    requires var r := BranchEntries(s, SkipDelta(s, p + 1), length - length / 2);
             Ascending(r) && FirstBytes(r, s[p], hi)
    requires lo <= s[p] <= hi
    ensures Ascending(BranchEntries(s, p, length)) && FirstBytes(BranchEntries(s, p, length), lo, hi)
  {
    SplitParts(s, p, length);
    var l := BranchEntries(s, JumpByDelta(s, p + 1), length / 2);
    var r := BranchEntries(s, SkipDelta(s, p + 1), length - length / 2);
    hide BranchEntries, Ascending, FirstBytes;
    AscendingConcat(l, r, lo, s[p], hi);
    FirstBytesConcat(l, r, lo, s[p], s[p], hi);
  }

  /** The first edge of a short branch comes before the others. */
  lemma EdgesAscending(s: seq<Byte>, p: int, length: nat, lo: int, hi: int)
    requires BranchOk(s, p, length) && 1 < length <= MAX_BRANCH_LINEAR_SUB_NODE_LENGTH
    requires Ascending(EdgeEntries(s, p)) && FirstBytes(EdgeEntries(s, p), s[p], s[p] as int + 1)
    requires var r := BranchEntries(s, AfterValue(s, p + 1), length - 1);
             Ascending(r) && FirstBytes(r, s[p] as int + 1, hi)
    requires lo <= s[p] < hi
    ensures Ascending(BranchEntries(s, p, length)) && FirstBytes(BranchEntries(s, p, length), lo, hi)
  {
    EdgeParts(s, p, length);
    var l, r := EdgeEntries(s, p), BranchEntries(s, AfterValue(s, p + 1), length - 1);
    var b: int := s[p];
    hide BranchEntries, Ascending, FirstBytes, EdgeEntries;
    AscendingConcat(l, r, b, b + 1, hi);
    FirstBytesConcat(l, r, b, b + 1, b + 1, hi);
    FirstBytesConcat([], l + r, lo, lo, b, hi);
  }

  lemma LastEdgeAscending(s: seq<Byte>, p: int, lo: int, hi: int)
    requires BranchOk(s, p, 1) && Ascending(Entries(s, p + 1)) && lo <= s[p] < hi
    ensures Ascending(BranchEntries(s, p, 1)) && FirstBytes(BranchEntries(s, p, 1), lo, hi)
  {
    AscendingPrefixed([s[p]], Entries(s, p + 1));
    PrefixedFirstBytes(s[p], Entries(s, p + 1));
  }

  lemma {:induction false} EdgeAscending(s: seq<Byte>, p: int, length: nat)
    requires BranchOk(s, p, length) && 2 <= length <= MAX_BRANCH_LINEAR_SUB_NODE_LENGTH
    requires IsFinal(s[p + 1]) || NodeSorted(s, EdgeTarget(s, p))
    ensures Ascending(EdgeEntries(s, p)) && FirstBytes(EdgeEntries(s, p), s[p], s[p] as int + 1)
    decreases |s| - p, 0
  {
    if !IsFinal(s[p + 1]) {
      EntriesAscending(s, EdgeTarget(s, p));
      AscendingPrefixed([s[p]], Entries(s, EdgeTarget(s, p)));
      PrefixedFirstBytes(s[p], Entries(s, EdgeTarget(s, p)));
    }
  }
}
