/**
 The trie enumerator: it walks the byte format with an explicit stack of branch states, each packed
 into a position and an integer that holds edge count and string length.
 */
module TrieIterator {
  import opened Basics
  import opened TrieFormat

  function Pack(length: nat, strLength: nat): int {
    length * 0x10000 + strLength
  }

  function EdgeCount(packed: int): int { packed / 0x10000 }

  function StrLength(packed: int): int { packed % 0x10000 }

  /** Pairs of positions and packed integers; string lengths never grow towards the bottom. */
  ghost predicate StackOk(s: seq<Byte>, stack: seq<int>, strLength: nat) {
    stack != [] ==>
      && 2 <= |stack| && 0 <= stack[|stack| - 1]
      && StrLength(stack[|stack| - 1]) <= strLength
      && BranchOk(s, stack[|stack| - 2], EdgeCount(stack[|stack| - 1])) && EdgeCount(stack[|stack| - 1]) <= 0x100
      && StackOk(s, stack[..|stack| - 2], StrLength(stack[|stack| - 1]))
  }

  /** The pairs that the stacked states still hold, from the top down. */
  ghost function StackEntries(s: seq<Byte>, stack: seq<int>, str: seq<Byte>): seq<Entry>
    requires StackOk(s, stack, |str|)
  {
    if stack == [] then []
    else
      var packed := stack[|stack| - 1];
      var kept := str[..StrLength(packed)];
      Prefixed(kept, BranchEntries(s, stack[|stack| - 2], EdgeCount(packed)))
      + StackEntries(s, stack[..|stack| - 2], kept)
  }

  /** Only the part of the string below the top state's length matters. */
  lemma StackFrame(s: seq<Byte>, stack: seq<int>, str: seq<Byte>, more: seq<Byte>)
    requires StackOk(s, stack, |str|)
    ensures StackOk(s, stack, |str + more|)
    ensures StackEntries(s, stack, str + more) == StackEntries(s, stack, str)
  {
    hide BranchOk;
    if stack != [] {
      var n := StrLength(stack[|stack| - 1]);
      assert (str + more)[..n] == str[..n];
    }
  }

  lemma StackPush(s: seq<Byte>, stack: seq<int>, str: seq<Byte>, p: int, length: nat)
    requires StackOk(s, stack, |str|) && BranchOk(s, p, length) && length <= 0x100 && |str| <= 0xffff
    ensures StackOk(s, stack + [p, Pack(length, |str|)], |str|)
    ensures StackEntries(s, stack + [p, Pack(length, |str|)], str)
         == Prefixed(str, BranchEntries(s, p, length)) + StackEntries(s, stack, str)
  {
    hide BranchOk, BranchEntries;
    var packed := Pack(length, |str|);
    var stack' := stack + [p, packed];
    assert EdgeCount(packed) == length && StrLength(packed) == |str|;
    assert stack'[..|stack'| - 2] == stack && str[..|str|] == str;
    assert stack'[|stack'| - 1] == packed && stack'[|stack'| - 2] == p;
  }

  /** No stacked state shortens the string below `base` bytes. */
  ghost predicate StackAbove(stack: seq<int>, base: nat) {
    forall k :: 0 <= k < |stack| && k % 2 == 1 ==> base <= StrLength(stack[k])
  }

  lemma StackAbovePush(stack: seq<int>, base: nat, p: int, length: nat, strLength: nat)
    requires StackAbove(stack, base) && |stack| % 2 == 0 && base <= strLength <= 0xffff
    ensures StackAbove(stack + [p, Pack(length, strLength)], base)
  {
    assert StrLength(Pack(length, strLength)) == strLength;
  }

  lemma StackAbovePop(stack: seq<int>, base: nat)
    requires StackAbove(stack, base) && |stack| % 2 == 0 && stack != []
    ensures 2 <= |stack| && StackAbove(stack[..|stack| - 2], base) && base <= StrLength(stack[|stack| - 1])
  {
    hide StrLength;
  }

  /** All keys are short enough for a packed string length. */
  ghost predicate KeysFit(es: seq<Entry>) {
    forall k :: 0 <= k < |es| ==> |es[k].key| <= 0xffff
  }

  lemma PrefixFits(prefix: seq<Byte>, es: seq<Entry>, rest: seq<Entry>)
    requires KeysFit(Prefixed(prefix, es) + rest) && es != []
    ensures |prefix| <= 0xffff
  {
    assert (Prefixed(prefix, es) + rest)[0] == Prefixed(prefix, es)[0];
  }

  /** A long branch is its less-than half and then its greater-or-equal half, which is stacked. */
  lemma SplitStep(s: seq<Byte>, stack: seq<int>, str: seq<Byte>, p: int, length: nat)
    requires StackOk(s, stack, |str|) && BranchOk(s, p, length)
    requires MAX_BRANCH_LINEAR_SUB_NODE_LENGTH < length <= 0x100
    requires KeysFit(Prefixed(str, BranchEntries(s, p, length)) + StackEntries(s, stack, str))
    ensures BranchOk(s, JumpByDelta(s, p + 1), length / 2) && p < JumpByDelta(s, p + 1) && |str| <= 0xffff
    ensures var stack' := stack + [SkipDelta(s, p + 1), Pack(length - length / 2, |str|)];
            && StackOk(s, stack', |str|)
            && Prefixed(str, BranchEntries(s, p, length)) + StackEntries(s, stack, str)
            == Prefixed(str, BranchEntries(s, JumpByDelta(s, p + 1), length / 2)) + StackEntries(s, stack', str)
  {
    hide BranchOk, BranchEntries, StackOk, StackEntries, KeysFit, Prefixed, SkipDelta, JumpByDelta, Pack;
    SplitParts(s, p, length);
    BranchEntriesNonEmpty(s, p, length);
    PrefixFits(str, BranchEntries(s, p, length), StackEntries(s, stack, str));
    var j, k := JumpByDelta(s, p + 1), SkipDelta(s, p + 1);
    var l, r := BranchEntries(s, j, length / 2), BranchEntries(s, k, length - length / 2);
    StackPush(s, stack, str, k, length - length / 2);
    PrefixedConcat(str, l, r);
    assert Prefixed(str, l) + Prefixed(str, r) + StackEntries(s, stack, str)
        == Prefixed(str, l) + (Prefixed(str, r) + StackEntries(s, stack, str));
  }

  /** A list of edges is its first edge and then the others, which are stacked. */
  lemma EdgeStep(s: seq<Byte>, stack: seq<int>, str: seq<Byte>, p: int, length: nat)
    requires StackOk(s, stack, |str|) && BranchOk(s, p, length)
    requires 2 <= length <= MAX_BRANCH_LINEAR_SUB_NODE_LENGTH
    requires KeysFit(Prefixed(str, BranchEntries(s, p, length)) + StackEntries(s, stack, str))
    ensures |str| <= 0xffff
    ensures var stack' := stack + [AfterValue(s, p + 1), Pack(length - 1, |str|)];
            && StackOk(s, stack', |str + [s[p]]|)
            && Prefixed(str, BranchEntries(s, p, length)) + StackEntries(s, stack, str)
            == Prefixed(str, EdgeEntries(s, p)) + StackEntries(s, stack', str + [s[p]])
  {
    hide BranchOk, BranchEntries, StackOk, StackEntries, KeysFit, Prefixed, AfterValue, EdgeEntries, Pack, ValueAt;
    EdgeParts(s, p, length);
    BranchEntriesNonEmpty(s, p, length);
    PrefixFits(str, BranchEntries(s, p, length), StackEntries(s, stack, str));
    var k := AfterValue(s, p + 1);
    var l, r := EdgeEntries(s, p), BranchEntries(s, k, length - 1);
    StackPush(s, stack, str, k, length - 1);
    StackFrame(s, stack + [k, Pack(length - 1, |str|)], str, [s[p]]);
    PrefixedConcat(str, l, r);
    assert Prefixed(str, l) + Prefixed(str, r) + StackEntries(s, stack, str)
        == Prefixed(str, l) + (Prefixed(str, r) + StackEntries(s, stack, str));
  }

  lemma FirstEdgeEntries(s: seq<Byte>, str: seq<Byte>, p: int, length: nat)
    requires BranchOk(s, p, length) && 2 <= length <= MAX_BRANCH_LINEAR_SUB_NODE_LENGTH
    ensures Prefixed(str, EdgeEntries(s, p)) ==
      if IsFinal(s[p + 1]) then [Entry(str + [s[p]], ValueOf(s, p + 1))]
      else Prefixed(str + [s[p]], Entries(s, EdgeTarget(s, p)))
  {
    if !IsFinal(s[p + 1]) { PrefixedTwice(str, [s[p]], Entries(s, EdgeTarget(s, p))); }
  }

  /** Popping the top state. */
  lemma StackPop(s: seq<Byte>, stack: seq<int>, str: seq<Byte>)
    requires StackOk(s, stack, |str|) && stack != []
    ensures 2 <= |stack| && 0 <= stack[|stack| - 1] && StrLength(stack[|stack| - 1]) <= |str|
    ensures var packed := stack[|stack| - 1];
            var kept := str[..StrLength(packed)];
            && BranchOk(s, stack[|stack| - 2], EdgeCount(packed)) && EdgeCount(packed) <= 0x100
            && StackOk(s, stack[..|stack| - 2], |kept|)
            && StackEntries(s, stack, str)
            == Prefixed(kept, BranchEntries(s, stack[|stack| - 2], EdgeCount(packed)))
               + StackEntries(s, stack[..|stack| - 2], kept)
  {
  }

  /** The last edge of a branch. */
  lemma LastEdge(s: seq<Byte>, stack: seq<int>, str: seq<Byte>, p: int)
    requires StackOk(s, stack, |str|) && BranchOk(s, p, 1)
    ensures 0 <= p < |s| && NodeOk(s, p + 1) && StackOk(s, stack, |str + [s[p]]|)
    ensures Prefixed(str, BranchEntries(s, p, 1)) + StackEntries(s, stack, str)
         == Prefixed(str + [s[p]], Entries(s, p + 1)) + StackEntries(s, stack, str + [s[p]])
  {
    StackFrame(s, stack, str, [s[p]]);
    PrefixedTwice(str, [s[p]], Entries(s, p + 1));
  }

  /** A linear-match node. */
  lemma LinearStep(s: seq<Byte>, stack: seq<int>, str: seq<Byte>, p: int)
    requires StackOk(s, stack, |str|) && NodeOk(s, p) && MIN_LINEAR_MATCH <= s[p] < MIN_VALUE_LEAD
    ensures p < AfterLinear(s, p) < |s| && NodeOk(s, AfterLinear(s, p))
    ensures var str' := str + s[p + 1..AfterLinear(s, p)];
            && StackOk(s, stack, |str'|)
            && Prefixed(str, Entries(s, p)) + StackEntries(s, stack, str)
            == Prefixed(str', Entries(s, AfterLinear(s, p))) + StackEntries(s, stack, str')
  {
    var match' := s[p + 1..AfterLinear(s, p)];
    StackFrame(s, stack, str, match');
    PrefixedTwice(str, match', Entries(s, AfterLinear(s, p)));
  }

  /** A value node. */
  lemma ValueStep(s: seq<Byte>, str: seq<Byte>, p: int)
    requires NodeOk(s, p) && MIN_VALUE_LEAD <= s[p]
    ensures ValueAt(s, p) && (IsFinal(s[p]) || NodeOk(s, AfterValue(s, p)))
    ensures Prefixed(str, Entries(s, p))
         == [Entry(str, ValueOf(s, p))] + (if IsFinal(s[p]) then [] else Prefixed(str, Entries(s, AfterValue(s, p))))
  {
    var rest := if IsFinal(s[p]) then [] else Entries(s, AfterValue(s, p));
    PrefixedConcat(str, [Entry([], ValueOf(s, p))], rest);
    assert str + [] == str;
  }

  lemma BranchNode(s: seq<Byte>, p: int)
    requires NodeOk(s, p) && s[p] < MIN_LINEAR_MATCH
    ensures BranchStart(s, p) <= |s| && 2 <= BranchLength(s, p) <= 0x100 && p < BranchStart(s, p)
    ensures BranchOk(s, BranchStart(s, p), BranchLength(s, p))
    ensures Entries(s, p) == BranchEntries(s, BranchStart(s, p), BranchLength(s, p))
  {
  }

  class Iterator {
    const bytes: seq<Byte>
    const initialPos: int
    const initialRemaining: int
    var pos: int  // negative: none
    var str: seq<Byte>
    var value: int
    var stack: seq<int>

    /** The pairs still to be delivered. */
    ghost function Pending(): seq<Entry>
      reads this
      requires Shape()
    {
      (if pos < 0 then [] else Prefixed(str, Entries(bytes, pos))) + StackEntries(bytes, stack, str)
    }

    ghost predicate Shape()
      reads this
    {
      (0 <= pos ==> NodeOk(bytes, pos)) && StackOk(bytes, stack, |str|)
    }

    /** The bytes of a pending linear-match node with which every string starts. */
    ghost function Initial(): seq<Byte>
      requires StateOk(bytes, initialPos, initialRemaining)
    {
      if initialPos < 0 then [] else bytes[initialPos..initialPos + initialRemaining + 1]
    }

    ghost predicate Based()
      reads this
    {
      && StateOk(bytes, initialPos, initialRemaining)
      && Initial() <= str && StackAbove(stack, |Initial()|) && |stack| % 2 == 0
    }

    ghost predicate Valid()
      reads this
    {
      Shape() && KeysFit(Pending()) && Based()
    }

    /** Starts from a state of a trie; its pairs are those the state can still match. */
    constructor (bytes: seq<Byte>, pos: int, remaining: int)
      requires StateOk(bytes, pos, remaining) && KeysFit(Residual(bytes, pos, remaining))
      ensures Valid() && this.bytes == bytes && initialPos == pos && initialRemaining == remaining
      ensures Pending() == Residual(bytes, pos, remaining)
    {
      this.bytes, initialPos, initialRemaining := bytes, pos, remaining;
      this.pos := if pos < 0 then pos else pos + (remaining + 1);
      str := if pos < 0 then [] else bytes[pos..pos + (remaining + 1)];
      value := 0;
      stack := [];
      new;
      hide NodeOk, Entries, Prefixed;
      assert Pending() == Residual(bytes, pos, remaining);
    }

    /** Goes back to the initial state. */
    method Reset()
      requires Valid() && KeysFit(Residual(bytes, initialPos, initialRemaining))
      modifies this`pos, this`str, this`stack
      ensures Valid() && Pending() == Residual(bytes, initialPos, initialRemaining)
    {
      hide NodeOk, Entries, Prefixed;
      var length := initialRemaining + 1;
      str := str[..length];
      pos := if initialPos < 0 then initialPos else initialPos + length;
      stack := [];
      assert str == Initial();
      assert Pending() == Residual(bytes, initialPos, initialRemaining);
    }

    /** `all` is what the walk is at: a pair just reached, or a node to go on with, and then the stack. */
    ghost predicate At(all: seq<Entry>, p: int)
      reads this
    {
      && StackOk(bytes, stack, |str|)
      && if p < 0 then pos < 0 && all == [Entry(str, value)] + StackEntries(bytes, stack, str)
         else NodeOk(bytes, p) && all == Prefixed(str, Entries(bytes, p)) + StackEntries(bytes, stack, str)
    }

    /** The same with a branch to go on with. */
    ghost predicate AtBranch(all: seq<Entry>, p: int, length: int)
      reads this
    {
      && StackOk(bytes, stack, |str|) && 0 <= length <= 0x100 && BranchOk(bytes, p, length)
      && all == Prefixed(str, BranchEntries(bytes, p, length)) + StackEntries(bytes, stack, str)
      && KeysFit(all)
    }

    /** Takes the first outbound edge of a branch and stacks the others. */
    method BranchNext(p0: int, length0: nat, ghost all: seq<Entry>) returns (p: int)
      requires AtBranch(all, p0, length0) && 2 <= length0 && Based()
      modifies this`pos, this`str, this`value, this`stack
      ensures At(all, p) && (0 <= p ==> p0 < p) && Based()
    {
      p := p0;
      var length := length0;
      hide StackOk, StackEntries, KeysFit, Prefixed, BranchOk, BranchEntries, Pack, SkipDelta, StackAbove, StateOk;
      while length > MAX_BRANCH_LINEAR_SUB_NODE_LENGTH
        invariant p0 <= p && 2 <= length && AtBranch(all, p, length) && Based()
      {
        SplitStep(bytes, stack, str, p, length);
        var ge, lt := ReadSplit(p, length);
        StackAbovePush(stack, |Initial()|, ge, length - length / 2, |str|);
        stack := stack + [ge, Pack(length - length / 2, |str|)];
        length := length / 2;
        p := lt;
      }
      p := FirstEdge(p, length, all);
    }

    /** The positions of both halves of a long branch. */
    method ReadSplit(p: int, length: nat) returns (ge: int, lt: int)
      requires BranchOk(bytes, p, length) && length > MAX_BRANCH_LINEAR_SUB_NODE_LENGTH
      ensures ge == SkipDelta(bytes, p + 1) && lt == JumpByDelta(bytes, p + 1)
    {
      ge, lt := SkipDelta(bytes, p + 1), JumpByDelta(bytes, p + 1);
    }

    /** Takes the first (key, value) pair of a list of edges and stacks the rest. */
    method FirstEdge(p0: int, length: nat, ghost all: seq<Entry>) returns (p: int)
      requires AtBranch(all, p0, length) && 2 <= length <= MAX_BRANCH_LINEAR_SUB_NODE_LENGTH && Based()
      modifies this`pos, this`str, this`value, this`stack
      ensures At(all, p) && (0 <= p ==> p0 < p) && Based()
    {
      hide StackOk, StackEntries, KeysFit, Prefixed, Pack, BranchEntries, EdgeEntries, BranchOk, NodeOk, ValueAt;
      hide ValueOf, AfterValue, StackAbove, StateOk;
      EdgeParts(bytes, p0, length);
      EdgeStep(bytes, stack, str, p0, length);
      FirstEdgeEntries(bytes, str, p0, length);
      var key, node := bytes[p0], bytes[p0 + 1];
      var v, after := ReadValueAt(p0 + 1);
      StackAbovePush(stack, |Initial()|, after, length - 1, |str|);
      stack := stack + [after, Pack(length - 1, |str|)];
      str := str + [key];
      if IsFinal(node) {
        pos := -1;
        value := v;
        p := -1;
      } else {
        p := after + v;
      }
    }

    method ReadValueAt(p: int) returns (v: int, after: int)
      requires ValueAt(bytes, p)
      ensures v == ValueOf(bytes, p) && after == AfterValue(bytes, p)
    {
      v := ReadValue(bytes, p + 1, bytes[p] / 2);
      after := AfterValue(bytes, p);
    }

    /** Walks from node `p0` to the next value. */
    method Walk(p0: int, ghost all: seq<Entry>)
      requires 0 <= p0 && At(all, p0) && KeysFit(all) && Based()
      modifies this`pos, this`str, this`value, this`stack
      ensures Shape() && all == [Entry(str, value)] + Pending() && Based()
    {
      hide StackOk, StackEntries, KeysFit, Prefixed, BranchEntries, Entries, NodeOk, BranchOk, ValueAt, ValueOf;
      hide AfterValue;
      hide AfterLinear, BranchStart, BranchLength, StackAbove, StateOk;
      var p := p0;
      while true
        invariant 0 <= p && At(all, p) && Based()
        decreases |bytes| - p
      {
        var node := ReadNode(p);
        if node >= MIN_VALUE_LEAD {
          ValueStep(bytes, str, p);
          var v, after := ReadValueAt(p);
          value := v;
          pos := if IsFinal(node) then -1 else after;
          return;
        }
        if node < MIN_LINEAR_MATCH {
          BranchNode(bytes, p);
          var start, length := ReadBranch(p);
          var next := BranchNext(start, length, all);
          if next < 0 {
            NothingPending();
            return;
          }
          p := next;
        } else {
          LinearStep(bytes, stack, str, p);
          str := str + bytes[p + 1..AfterLinear(bytes, p)];
          p := AfterLinear(bytes, p);
        }
      }
    }

    method ReadNode(p: int) returns (node: Byte)
      requires NodeOk(bytes, p)
      ensures 0 <= p < |bytes| && node == bytes[p]
    {
      node := bytes[p];
    }

    method ReadBranch(p: int) returns (start: int, length: nat)
      requires 0 <= p < |bytes| && BranchStart(bytes, p) <= |bytes|
      ensures start == BranchStart(bytes, p) && length == BranchLength(bytes, p)
    {
      start := p + 1;
      var node: int := bytes[p];
      if node == 0 {
        node := bytes[start];
        start := start + 1;
      }
      length := node + 1;
    }

    /** Whether there is anything left to deliver. */
    predicate HasNext()
      reads this
      requires Shape()
      ensures HasNext() <==> Pending() != []
    {
      SomethingPending();
      0 <= pos || stack != []
    }

    lemma SomethingPending()
      requires Shape()
      ensures 0 <= pos || stack != [] ==> Pending() != []
    {
      if 0 <= pos { EntriesNonEmpty(bytes, pos); }
      if stack != [] { BranchEntriesNonEmpty(bytes, stack[|stack| - 2], EdgeCount(stack[|stack| - 1])); }
    }

    /** Goes on with the next outbound edge of the last branch on the stack. */
    method PopEdge(ghost all: seq<Entry>) returns (p: int)
      requires Valid() && pos < 0 && stack != [] && all == Pending()
      modifies this`pos, this`str, this`value, this`stack
      ensures At(all, p) && Based()
    {
      hide StackOk, StackEntries, KeysFit, Prefixed, BranchEntries, Entries, NodeOk, BranchOk, StackAbove, StateOk;
      hide StrLength, EdgeCount;
      NothingPending();
      StackPop(bytes, stack, str);
      StackAbovePop(stack, |Initial()|);
      var packed := stack[|stack| - 1];
      p := stack[|stack| - 2];
      stack := stack[..|stack| - 2];
      str := str[..StrLength(packed)];
      var length := EdgeCount(packed);
      if length > 1 {
        p := BranchNext(p, length, all);
      } else {
        LastEdge(bytes, stack, str, p);
        str := str + [bytes[p]];
        p := p + 1;
      }
    }

    /** Delivers the next pair, if there is one. */
    method Next() returns (has: bool)
      requires Valid()
      modifies this`pos, this`str, this`value, this`stack
      ensures Valid()
      ensures has <==> old(Pending()) != []
      ensures has ==> old(Pending()) == [Entry(str, value)] + Pending()
      ensures !has ==> Pending() == []
    {
      hide StackOk, StackEntries, KeysFit, Prefixed, Entries, NodeOk, Based;
      ghost var all := Pending();
      var p := pos;
      if p < 0 {
        NothingPending();
        if stack == [] { return false; }
        p := PopEdge(all);
        if p < 0 {
          NothingPending();
          FitsAfter(all, Entry(str, value), Pending());
          return true;
        }
      }
      Walk(p, all);
      FitsAfter(all, Entry(str, value), Pending());
      return true;
    }

    lemma NothingPending()
      requires Shape() && pos < 0
      ensures Pending() == StackEntries(bytes, stack, str)
      ensures stack == [] ==> Pending() == []
    {
    }

    lemma FitsAfter(all: seq<Entry>, e: Entry, rest: seq<Entry>)
      requires KeysFit(all) && all == [e] + rest
      ensures KeysFit(rest) && all != []
    {
      assert forall k :: 0 <= k < |rest| ==> rest[k] == all[k + 1];
    }
  }
}
