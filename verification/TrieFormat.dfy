/**
 The byte format of a serialized trie: nodes, compact values and jump deltas, and the
 (string, value) pairs that a node denotes.
 */
module TrieFormat {
  import opened Basics

  const MIN_LINEAR_MATCH := 0x10
  const MAX_LINEAR_MATCH_LENGTH := 0x10
  const MIN_VALUE_LEAD := 0x20
  const MAX_BRANCH_LINEAR_SUB_NODE_LENGTH := 5

  const MIN_ONE_BYTE_VALUE_LEAD := 0x10
  const MAX_ONE_BYTE_VALUE := 0x40
  const MIN_TWO_BYTE_VALUE_LEAD := 0x51
  const MAX_TWO_BYTE_VALUE := 0x1aff
  const MIN_THREE_BYTE_VALUE_LEAD := 0x6c
  const FOUR_BYTE_VALUE_LEAD := 0x7e
  const FIVE_BYTE_VALUE_LEAD := 0x7f
  const MAX_THREE_BYTE_VALUE := 0x11ffff

  const MAX_ONE_BYTE_DELTA := 0xbf
  const MIN_TWO_BYTE_DELTA_LEAD := 0xc0
  const MIN_THREE_BYTE_DELTA_LEAD := 0xf0
  const FOUR_BYTE_DELTA_LEAD := 0xfe
  const FIVE_BYTE_DELTA_LEAD := 0xff
  const MAX_TWO_BYTE_DELTA := 0x2fff
  const MAX_THREE_BYTE_DELTA := 0xdffff

  /** A string of bytes with its value. */
  datatype Entry = Entry(key: seq<Byte>, value: int)

  // ----- integers

  function Big2(s: seq<Byte>, p: int): nat
    requires 0 <= p && p + 2 <= |s|
  {
    s[p] as int * 0x100 + s[p + 1] as int
  }

  function Big3(s: seq<Byte>, p: int): nat
    requires 0 <= p && p + 3 <= |s|
  {
    s[p] as int * 0x10000 + s[p + 1] as int * 0x100 + s[p + 2] as int
  }

  function Big4(s: seq<Byte>, p: int): nat
    requires 0 <= p && p + 4 <= |s|
  {
    s[p] as int * 0x1000000 + s[p + 1] as int * 0x10000 + s[p + 2] as int * 0x100 + s[p + 3] as int
  }

  /** 32 bits read as a signed integer. */
  function Signed32(x: nat): int {
    if x < 0x8000_0000 then x else x - 0x1_0000_0000
  }

  /** Number of bytes after the lead byte of a value, the lead byte being shifted right by 1. */
  function ValueTail(lead: nat): nat {
    if lead < MIN_TWO_BYTE_VALUE_LEAD then 0
    else if lead < MIN_THREE_BYTE_VALUE_LEAD then 1
    else if lead < FOUR_BYTE_VALUE_LEAD then 2
    else if lead == FOUR_BYTE_VALUE_LEAD then 3
    else 4
  }

  /** The value with the given lead byte, shifted right by 1, and its other bytes from `p`. */
  function ReadValue(s: seq<Byte>, p: int, lead: nat): int
    requires 0 <= p && p + ValueTail(lead) <= |s|
  {
    if lead < MIN_TWO_BYTE_VALUE_LEAD then lead - MIN_ONE_BYTE_VALUE_LEAD
    else if lead < MIN_THREE_BYTE_VALUE_LEAD then (lead - MIN_TWO_BYTE_VALUE_LEAD) * 0x100 + s[p] as int
    else if lead < FOUR_BYTE_VALUE_LEAD then (lead - MIN_THREE_BYTE_VALUE_LEAD) * 0x10000 + Big2(s, p)
    else if lead == FOUR_BYTE_VALUE_LEAD then Big3(s, p)
    else Signed32(Big4(s, p))
  }

  function DeltaTail(lead: Byte): nat {
    if lead < MIN_TWO_BYTE_DELTA_LEAD then 0
    else if lead < MIN_THREE_BYTE_DELTA_LEAD then 1
    else if lead < FOUR_BYTE_DELTA_LEAD then 2
    else if lead == FOUR_BYTE_DELTA_LEAD then 3
    else 4
  }

  function SkipDelta(s: seq<Byte>, p: int): (r: int)
    requires 0 <= p < |s|
    ensures p < r
  {
    p + 1 + DeltaTail(s[p])
  }

  /** The position that the jump delta at `p` leads to. */
  function JumpByDelta(s: seq<Byte>, p: int): int
    requires 0 <= p < |s| && SkipDelta(s, p) <= |s|
  {
    var lead: int := s[p];
    SkipDelta(s, p) +
      if lead < MIN_TWO_BYTE_DELTA_LEAD then lead
      else if lead < MIN_THREE_BYTE_DELTA_LEAD then (lead - MIN_TWO_BYTE_DELTA_LEAD) * 0x100 + s[p + 1] as int
      else if lead < FOUR_BYTE_DELTA_LEAD then (lead - MIN_THREE_BYTE_DELTA_LEAD) * 0x10000 + Big2(s, p + 1)
      else if lead == FOUR_BYTE_DELTA_LEAD then Big3(s, p + 1)
      else Signed32(Big4(s, p + 1))
  }

  // ----- nodes

  predicate IsFinal(lead: Byte) { lead % 2 == 1 }

  /** A whole value starts at `p`. */
  predicate ValueAt(s: seq<Byte>, p: int) {
    0 <= p < |s| && MIN_VALUE_LEAD <= s[p] && AfterValue(s, p) <= |s|
  }

  function AfterValue(s: seq<Byte>, p: int): (r: int)
    requires 0 <= p < |s|
    ensures p < r
  {
    p + 1 + ValueTail(s[p] / 2)
  }

  function ValueOf(s: seq<Byte>, p: int): int
    requires ValueAt(s, p)
  {
    ReadValue(s, p + 1, s[p] / 2)
  }

  /** Where a branch with lead byte `s[p]` has its first sub-node, and its length. */
  function BranchStart(s: seq<Byte>, p: int): (r: int)
    requires 0 <= p < |s|
    ensures p < r
  {
    if s[p] == 0 then p + 2 else p + 1
  }

  function BranchLength(s: seq<Byte>, p: int): nat
    requires 0 <= p < |s| && BranchStart(s, p) <= |s|
  {
    (if s[p] == 0 then s[p + 1] as int else s[p] as int) + 1
  }

  /** A well-formed node starts at `p`: everything that reading it leads to is in place. */
  predicate NodeOk(s: seq<Byte>, p: int)
    decreases |s| - p
  {
    && 0 <= p < |s|
    && if MIN_VALUE_LEAD <= s[p] then
         ValueAt(s, p) && (IsFinal(s[p]) || (NodeOk(s, AfterValue(s, p)) && s[AfterValue(s, p)] < MIN_VALUE_LEAD))
       else if MIN_LINEAR_MATCH <= s[p] then AfterLinear(s, p) < |s| && NodeOk(s, AfterLinear(s, p))
       else BranchStart(s, p) <= |s| && 2 <= BranchLength(s, p) && BranchOk(s, BranchStart(s, p), BranchLength(s, p))
  }

  function AfterLinear(s: seq<Byte>, p: int): (r: int)
    requires 0 <= p < |s| && MIN_LINEAR_MATCH <= s[p] < MIN_VALUE_LEAD
    ensures p < r
  {
    p + 1 + (s[p] as int - MIN_LINEAR_MATCH + 1)
  }

  /** A well-formed branch (sub-)node with `length` outbound edges. */
  predicate BranchOk(s: seq<Byte>, p: int, length: nat)
    decreases |s| - p
  {
    && 0 <= p < |s| && 1 <= length
    && if length > MAX_BRANCH_LINEAR_SUB_NODE_LENGTH then
         && p + 1 < |s| && SkipDelta(s, p + 1) <= |s| && SkipDelta(s, p + 1) <= JumpByDelta(s, p + 1)
         && BranchOk(s, JumpByDelta(s, p + 1), length / 2)
         && BranchOk(s, SkipDelta(s, p + 1), length - length / 2)
       else if length > 1 then
         && ValueAt(s, p + 1)
         && (IsFinal(s[p + 1]) || (ValueOf(s, p + 1) >= 0 && NodeOk(s, EdgeTarget(s, p))))
         && BranchOk(s, AfterValue(s, p + 1), length - 1)
       else NodeOk(s, p + 1)
  }

  /** The node that a (key, jump) pair at `p` leads to. */
  function EdgeTarget(s: seq<Byte>, p: int): int
    requires ValueAt(s, p + 1)
  {
    AfterValue(s, p + 1) + ValueOf(s, p + 1)
  }

  /** The pairs below a node, in the order in which the node holds them. */
  function Entries(s: seq<Byte>, p: int): seq<Entry>
    requires NodeOk(s, p)
    decreases |s| - p
  {
    if MIN_VALUE_LEAD <= s[p] then
      [Entry([], ValueOf(s, p))] + (if IsFinal(s[p]) then [] else Entries(s, AfterValue(s, p)))
    else if MIN_LINEAR_MATCH <= s[p] then
      Prefixed(s[p + 1..AfterLinear(s, p)], Entries(s, AfterLinear(s, p)))
    else BranchEntries(s, BranchStart(s, p), BranchLength(s, p))
  }

  function BranchEntries(s: seq<Byte>, p: int, length: nat): seq<Entry>
    requires BranchOk(s, p, length)
    decreases |s| - p
  {
    if length > MAX_BRANCH_LINEAR_SUB_NODE_LENGTH then
      BranchEntries(s, JumpByDelta(s, p + 1), length / 2) + BranchEntries(s, SkipDelta(s, p + 1), length - length / 2)
    else if length > 1 then EdgeEntries(s, p) + BranchEntries(s, AfterValue(s, p + 1), length - 1)
    else Prefixed([s[p]], Entries(s, p + 1))
  }

  /** The pairs of one (key, value or jump) pair of a branch. */
  function EdgeEntries(s: seq<Byte>, p: int): seq<Entry>
    requires 0 <= p && ValueAt(s, p + 1)
    requires IsFinal(s[p + 1]) || (ValueOf(s, p + 1) >= 0 && NodeOk(s, EdgeTarget(s, p)))
    decreases |s| - p, 0
  {
    if IsFinal(s[p + 1]) then [Entry([s[p]], ValueOf(s, p + 1))]
    else Prefixed([s[p]], Entries(s, EdgeTarget(s, p)))
  }

  function Prefixed(prefix: seq<Byte>, es: seq<Entry>): (r: seq<Entry>)
    ensures |r| == |es|
    ensures forall k :: 0 <= k < |es| ==> r[k] == Entry(prefix + es[k].key, es[k].value)
  {
    seq(|es|, k requires 0 <= k < |es| => Entry(prefix + es[k].key, es[k].value))
  }

  lemma PrefixedTwice(a: seq<Byte>, b: seq<Byte>, es: seq<Entry>)
    ensures Prefixed(a, Prefixed(b, es)) == Prefixed(a + b, es)
  {
    forall k | 0 <= k < |es| ensures Prefixed(a, Prefixed(b, es))[k] == Prefixed(a + b, es)[k] {
      assert a + (b + es[k].key) == (a + b) + es[k].key;
    }
  }

  lemma PrefixedConcat(a: seq<Byte>, es: seq<Entry>, fs: seq<Entry>)
    ensures Prefixed(a, es + fs) == Prefixed(a, es) + Prefixed(a, fs)
  {
  }

  lemma PrefixedNothing(es: seq<Entry>)
    ensures Prefixed([], es) == es
  {
    forall k | 0 <= k < |es| ensures Prefixed([], es)[k] == es[k] {
      assert [] + es[k].key == es[k].key;
    }
  }

  lemma {:induction false} EntriesNonEmpty(s: seq<Byte>, p: int)
    requires NodeOk(s, p)
    ensures Entries(s, p) != []
    decreases |s| - p
  {
    if s[p] < MIN_VALUE_LEAD {
      if MIN_LINEAR_MATCH <= s[p] {
        EntriesNonEmpty(s, AfterLinear(s, p));
      } else {
        BranchEntriesNonEmpty(s, BranchStart(s, p), BranchLength(s, p));
      }
    }
  }

  lemma {:induction false} BranchEntriesNonEmpty(s: seq<Byte>, p: int, length: nat)
    requires BranchOk(s, p, length)
    ensures BranchEntries(s, p, length) != []
    decreases |s| - p
  {
    if length > MAX_BRANCH_LINEAR_SUB_NODE_LENGTH {
      BranchEntriesNonEmpty(s, SkipDelta(s, p + 1), length - length / 2);
    } else if length > 1 {
      BranchEntriesNonEmpty(s, AfterValue(s, p + 1), length - 1);
    } else {
      EntriesNonEmpty(s, p + 1);
    }
  }

  /** What a long branch consists of. */
  lemma SplitParts(s: seq<Byte>, p: int, length: nat)
    requires BranchOk(s, p, length) && length > MAX_BRANCH_LINEAR_SUB_NODE_LENGTH
    ensures 0 <= p && p + 1 < |s| && SkipDelta(s, p + 1) <= |s|
    ensures p < SkipDelta(s, p + 1) <= JumpByDelta(s, p + 1)
    ensures BranchOk(s, JumpByDelta(s, p + 1), length / 2) && BranchOk(s, SkipDelta(s, p + 1), length - length / 2)
    ensures BranchEntries(s, p, length)
         == BranchEntries(s, JumpByDelta(s, p + 1), length / 2)
            + BranchEntries(s, SkipDelta(s, p + 1), length - length / 2)
  {
  }

  /** What a list of edges consists of. */
  lemma EdgeParts(s: seq<Byte>, p: int, length: nat)
    requires BranchOk(s, p, length) && 2 <= length <= MAX_BRANCH_LINEAR_SUB_NODE_LENGTH
    ensures 0 <= p && ValueAt(s, p + 1) && p < AfterValue(s, p + 1)
    ensures IsFinal(s[p + 1]) || (0 <= ValueOf(s, p + 1) && p < EdgeTarget(s, p) && NodeOk(s, EdgeTarget(s, p)))
    ensures BranchOk(s, AfterValue(s, p + 1), length - 1)
    ensures BranchEntries(s, p, length) == EdgeEntries(s, p) + BranchEntries(s, AfterValue(s, p + 1), length - 1)
  {
  }

  /**
   A state of matching: at a node, or inside a linear-match node with `remaining + 1` bytes to go; negative `p` is
   no state.
   */
  predicate StateOk(s: seq<Byte>, p: int, remaining: int) {
    && -1 <= remaining && (p < 0 ==> remaining == -1)
    && (0 <= p ==> p + remaining + 1 < |s| && NodeOk(s, p + remaining + 1))
  }

  /** The pairs that can still be matched. */
  function Residual(s: seq<Byte>, p: int, remaining: int): seq<Entry>
    requires StateOk(s, p, remaining)
  {
    if p < 0 then [] else Prefixed(s[p..p + remaining + 1], Entries(s, p + remaining + 1))
  }
}
