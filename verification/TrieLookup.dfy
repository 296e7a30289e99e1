/**
 Matching a trie byte by byte.
 */
module TrieLookup {
  import opened Basics
  import opened TrieFormat
  import opened TrieOrder

  datatype TrieResult = NoMatch | NoValue | FinalValue | IntermediateValue

  /** The pairs whose key starts with byte `b`, without that byte. */
  function Derive(es: seq<Entry>, b: Byte): seq<Entry> {
    if es == [] then []
    else
      var rest := Derive(es[1..], b);
      if es[0].key != [] && es[0].key[0] == b then [Entry(es[0].key[1..], es[0].value)] + rest else rest
  }

  function DeriveAll(es: seq<Entry>, key: seq<Byte>): seq<Entry>
    decreases key
  {
    if key == [] then es else DeriveAll(Derive(es, key[0]), key[1..])
  }

  /** What a state with these pairs reports. */
  function Report(es: seq<Entry>): TrieResult {
    if es == [] then NoMatch
    else if es[0].key != [] then NoValue
    else if |es| == 1 then FinalValue else IntermediateValue
  }

  lemma {:induction false} DeriveConcat(es: seq<Entry>, fs: seq<Entry>, b: Byte)
    ensures Derive(es + fs, b) == Derive(es, b) + Derive(fs, b)
  {
    hide Derive, Own;
    if es == [] {
      assert es + fs == fs;
      DeriveEmpty(b);
      assert [] + Derive(fs, b) == Derive(fs, b);
    } else {
      DeriveConcat(es[1..], fs, b);
      DeriveStep(es, b);
      DeriveStep(es + fs, b);
      assert (es + fs)[1..] == es[1..] + fs;
      assert Own(es[0], b) + (Derive(es[1..], b) + Derive(fs, b)) == Own(es[0], b) + Derive(es[1..], b) + Derive(fs, b);
    }
  }

  /** What one pair contributes. */
  function Own(e: Entry, b: Byte): seq<Entry> {
    if e.key != [] && e.key[0] == b then [Entry(e.key[1..], e.value)] else []
  }

  lemma DeriveEmpty(b: Byte)
    ensures Derive([], b) == []
  {
  }

  lemma DeriveStep(es: seq<Entry>, b: Byte)
    requires es != []
    ensures Derive(es, b) == Own(es[0], b) + Derive(es[1..], b)
  {
    var rest := Derive(es[1..], b);
    assert [] + rest == rest;
  }

  lemma {:induction false} DeriveNone(es: seq<Entry>, b: Byte, lo: int, hi: int)
    requires FirstBytes(es, lo, hi) && !(lo <= b < hi)
    ensures Derive(es, b) == []
  {
    if es != [] { DeriveNone(es[1..], b, lo, hi); }
  }

  lemma {:induction false} DerivePrefixed(prefix: seq<Byte>, es: seq<Entry>, b: Byte)
    requires prefix != []
    ensures Derive(Prefixed(prefix, es), b) == if prefix[0] == b then Prefixed(prefix[1..], es) else []
  {
    if es != [] {
      DerivePrefixed(prefix, es[1..], b);
      var ps := Prefixed(prefix, es);
      assert ps[1..] == Prefixed(prefix, es[1..]);
      assert (prefix + es[0].key)[1..] == prefix[1..] + es[0].key;
      assert Prefixed(prefix[1..], es)
          == [Entry(prefix[1..] + es[0].key, es[0].value)] + Prefixed(prefix[1..], es[1..]);
    } else {
      assert Prefixed(prefix, es) == [];
      assert Prefixed(prefix[1..], es) == [];
    }
  }

  /** Matching a byte keeps exactly the keys that start with it. */
  lemma {:induction false} DeriveKeys(es: seq<Entry>, b: Byte, key: seq<Byte>, v: int)
    ensures Entry(key, v) in Derive(es, b) <==> Entry([b] + key, v) in es
  {
    if es != [] {
      DeriveKeys(es[1..], b, key, v);
      var e := es[0];
      assert es == [e] + es[1..];
      if e.key != [] && e.key[0] == b {
        assert e.key == [b] + e.key[1..];
      }
      if e == Entry([b] + key, v) {
        assert e.key[1..] == key;
      }
    }
  }

  lemma {:induction false} DeriveAllKeys(es: seq<Entry>, key: seq<Byte>, v: int)
    ensures Entry([], v) in DeriveAll(es, key) <==> Entry(key, v) in es
    decreases key
  {
    if key != [] {
      DeriveAllKeys(Derive(es, key[0]), key[1..], v);
      DeriveKeys(es, key[0], key[1..], v);
      assert [key[0]] + key[1..] == key;
    }
  }

  lemma {:induction false} DeriveAscending(es: seq<Entry>, b: Byte)
    requires Ascending(es)
    ensures Ascending(Derive(es, b))
  {
    hide Before;
    if es != [] {
      var ds := Derive(es[1..], b);
      DeriveAscending(es[1..], b);
      if es[0].key != [] && es[0].key[0] == b {
        forall k | 0 <= k < |ds| ensures Before(es[0].key[1..], ds[k].key) {
          DeriveKeys(es[1..], b, ds[k].key, ds[k].value);
          DerivedAfter(es, b, ds[k]);
        }
      }
    }
  }

  lemma {:induction false} DerivedAfter(es: seq<Entry>, b: Byte, d: Entry)
    requires es != [] && Ascending(es) && es[0].key != [] && es[0].key[0] == b && Entry([b] + d.key, d.value) in es[1..]
    ensures Before(es[0].key[1..], d.key)
  {
    var i :| 0 <= i < |es[1..]| && es[1..][i] == Entry([b] + d.key, d.value);
    assert es[i + 1] == es[1..][i];
    assert ([b] + d.key)[1..] == d.key;
  }

  lemma {:induction false} DeriveAllAscending(es: seq<Entry>, key: seq<Byte>)
    requires Ascending(es)
    ensures Ascending(DeriveAll(es, key))
    decreases key
  {
    if key != [] {
      DeriveAscending(es, key[0]);
      DeriveAllAscending(Derive(es, key[0]), key[1..]);
    }
  }

  /**
   After matching all bytes of a string, a value is reported exactly if the string is in the trie, and it is that
   string's value.
   */
  lemma LookupFindsValue(es: seq<Entry>, key: seq<Byte>, v: int)
    requires Ascending(es)
    ensures Entry(key, v) in es <==>
              var ds := DeriveAll(es, key);
              (Report(ds) == FinalValue || Report(ds) == IntermediateValue) && ds[0].value == v
  {
    DeriveAllKeys(es, key, v);
    DeriveAllAscending(es, key);
    var ds := DeriveAll(es, key);
    if Entry([], v) in ds {
      var k :| 0 <= k < |ds| && ds[k] == Entry([], v);
    }
  }

  lemma {:induction false} DeriveAllPairs(es: seq<Entry>, key: seq<Byte>, more: seq<Byte>, v: int)
    ensures Entry(more, v) in DeriveAll(es, key) <==> Entry(key + more, v) in es
    decreases key
  {
    if key == [] {
      assert key + more == more;
    } else {
      DeriveAllPairs(Derive(es, key[0]), key[1..], more, v);
      DeriveKeys(es, key[0], key[1..] + more, v);
      assert [key[0]] + (key[1..] + more) == key + more;
    }
  }

  /** Some string of the trie starts with `key`. */
  ghost predicate Begins(es: seq<Entry>, key: seq<Byte>) { exists more, v :: Entry(key + more, v) in es }

  /** The string `key` is in the trie. */
  ghost predicate IsString(es: seq<Entry>, key: seq<Byte>) { exists v :: Entry(key, v) in es }

  /** Some longer string of the trie starts with `key`. */
  ghost predicate Longer(es: seq<Entry>, key: seq<Byte>) { exists more, v :: more != [] && Entry(key + more, v) in es }

  /** What is reported after the bytes of `key` says whether it is a string of the trie and whether it begins others. */
  lemma ReportMeans(es: seq<Entry>, key: seq<Byte>)
    requires Ascending(es)
    ensures var r := Report(DeriveAll(es, key));
            && (r == NoMatch <==> !Begins(es, key))
            && (r == NoValue <==> Begins(es, key) && !IsString(es, key))
            && (r == FinalValue <==> IsString(es, key) && !Longer(es, key))
            && (r == IntermediateValue <==> IsString(es, key) && Longer(es, key))
  {
    var ds := DeriveAll(es, key);
    DeriveAllAscending(es, key);
    assert key + [] == key;
    forall more, v ensures Entry(more, v) in ds <==> Entry(key + more, v) in es { DeriveAllPairs(es, key, more, v); }
    hide DeriveAll;
    FirstIsEmpty(ds);
    assert Begins(es, key) <==> ds != [] by {
      if ds != [] { assert Entry(ds[0].key, ds[0].value) in ds; }
    }
    assert IsString(es, key) <==> exists v :: Entry([], v) in ds;
    assert Longer(es, key) <==> exists more, v :: more != [] && Entry(more, v) in ds;
  }

  lemma FirstIsEmpty(ds: seq<Entry>)
    requires Ascending(ds)
    ensures (exists v :: Entry([], v) in ds) <==> ds != [] && ds[0].key == []
    ensures ds != [] && ds[0].key == [] ==>
              ((exists more, v :: more != [] && Entry(more, v) in ds) <==> |ds| > 1)
  {
    if ds != [] && ds[0].key == [] {
      assert ds[0] == Entry([], ds[0].value);
      if |ds| > 1 { assert Before(ds[0].key, ds[1].key) && Entry(ds[1].key, ds[1].value) in ds; }
      if more, v :| more != [] && Entry(more, v) in ds { assert ds[0] != Entry(more, v); }
    }
    if v :| Entry([], v) in ds {
      var k :| 0 <= k < |ds| && ds[k] == Entry([], v);
      assert k > 0 ==> Before(ds[0].key, ds[k].key);
    }
  }

  // ----- how a byte selects a part of a branch

  lemma DeriveSplit(s: seq<Byte>, p: int, length: nat, lo: int, hi: int, b: Byte)
    requires BranchOk(s, p, length) && BranchSorted(s, p, length, lo, hi) && length > MAX_BRANCH_LINEAR_SUB_NODE_LENGTH
    ensures Derive(BranchEntries(s, p, length), b) ==
      if b < s[p] then Derive(BranchEntries(s, JumpByDelta(s, p + 1), length / 2), b)
      else Derive(BranchEntries(s, SkipDelta(s, p + 1), length - length / 2), b)
  {
    SplitParts(s, p, length);
    var l := BranchEntries(s, JumpByDelta(s, p + 1), length / 2);
    var r := BranchEntries(s, SkipDelta(s, p + 1), length - length / 2);
    BranchAscending(s, JumpByDelta(s, p + 1), length / 2, lo, s[p]);
    BranchAscending(s, SkipDelta(s, p + 1), length - length / 2, s[p], hi);
    hide BranchEntries, Derive, FirstBytes, Ascending;
    DeriveConcat(l, r, b);
    if b < s[p] { DeriveNone(r, b, s[p], hi); } else { DeriveNone(l, b, lo, s[p]); }
  }

  lemma {:induction false} DeriveEdge(s: seq<Byte>, p: int, length: nat, lo: int, hi: int, b: Byte)
    requires BranchOk(s, p, length) && BranchSorted(s, p, length, lo, hi)
    requires 2 <= length <= MAX_BRANCH_LINEAR_SUB_NODE_LENGTH
    ensures Derive(BranchEntries(s, p, length), b) ==
      if b != s[p] then Derive(BranchEntries(s, AfterValue(s, p + 1), length - 1), b)
      else if IsFinal(s[p + 1]) then [Entry([], ValueOf(s, p + 1))]
      else Entries(s, EdgeTarget(s, p))
  {
    hide BranchEntries, EdgeEntries, Derive, FirstBytes, Ascending, Entries;
    EdgeParts(s, p, length);
    var l, r := EdgeEntries(s, p), BranchEntries(s, AfterValue(s, p + 1), length - 1);
    EdgeAscending(s, p, length);
    BranchAscending(s, AfterValue(s, p + 1), length - 1, s[p] as int + 1, hi);
    DeriveOwnEdge(s, p, length);
    hide BranchOk, BranchSorted;
    DeriveConcat(l, r, b);
    if b != s[p] {
      DeriveNone(l, b, s[p], s[p] as int + 1);
    } else {
      DeriveNone(r, b, s[p] as int + 1, hi);
    }
  }

  lemma DeriveOwnEdge(s: seq<Byte>, p: int, length: nat)
    requires BranchOk(s, p, length) && 2 <= length <= MAX_BRANCH_LINEAR_SUB_NODE_LENGTH
    ensures Derive(EdgeEntries(s, p), s[p]) ==
      if IsFinal(s[p + 1]) then [Entry([], ValueOf(s, p + 1))] else Entries(s, EdgeTarget(s, p))
  {
    if IsFinal(s[p + 1]) {
      var e := Entry([s[p]], ValueOf(s, p + 1));
      assert [e][1..] == [] && [s[p]][1..] == [];
    } else {
      DerivePrefixed([s[p]], Entries(s, EdgeTarget(s, p)), s[p]);
      PrefixedNothing(Entries(s, EdgeTarget(s, p)));
      assert [s[p]][1..] == [];
    }
  }

  lemma DeriveLast(s: seq<Byte>, p: int, b: Byte)
    requires BranchOk(s, p, 1)
    ensures Derive(BranchEntries(s, p, 1), b) == if b == s[p] then Entries(s, p + 1) else []
  {
    DerivePrefixed([s[p]], Entries(s, p + 1), b);
    PrefixedNothing(Entries(s, p + 1));
    assert [s[p]][1..] == [];
  }

  lemma DeriveValue(s: seq<Byte>, p: int, b: Byte)
    requires NodeOk(s, p) && MIN_VALUE_LEAD <= s[p]
    ensures Derive(Entries(s, p), b) == if IsFinal(s[p]) then [] else Derive(Entries(s, AfterValue(s, p)), b)
  {
    var rest := if IsFinal(s[p]) then [] else Entries(s, AfterValue(s, p));
    DeriveConcat([Entry([], ValueOf(s, p))], rest, b);
    assert [Entry([], ValueOf(s, p))][1..] == [];
  }

  lemma ReportNode(s: seq<Byte>, p: int)
    requires NodeOk(s, p) && NodeSorted(s, p)
    ensures Report(Entries(s, p)) ==
      if s[p] < MIN_VALUE_LEAD then NoValue else if IsFinal(s[p]) then FinalValue else IntermediateValue
  {
    EntriesNonEmpty(s, p);
    if s[p] < MIN_VALUE_LEAD {
      NoValueFirstBytes(s, p);
    } else if !IsFinal(s[p]) {
      EntriesNonEmpty(s, AfterValue(s, p));
    }
  }

  class BytesTrie {
    const bytes: seq<Byte>
    var pos: int  // negative: no match
    var remaining: int

    ghost predicate Valid()
      reads this
    {
      StateOk(bytes, pos, remaining) && (0 <= pos ==> NodeSorted(bytes, pos + remaining + 1))
    }

    /** The pairs that can still be matched from here. */
    ghost function Rest(): seq<Entry>
      reads this
      requires Valid()
    {
      Residual(bytes, pos, remaining)
    }

    constructor (bytes: seq<Byte>)
      requires NodeOk(bytes, 0) && NodeSorted(bytes, 0)
      ensures Valid() && this.bytes == bytes && Rest() == Entries(bytes, 0)
    {
      this.bytes, pos, remaining := bytes, 0, -1;
      new;
      PrefixedNothing(Entries(bytes, 0));
    }

    method Stop()
      modifies this
      ensures Valid() && Rest() == []
    {
      pos, remaining := -1, -1;
    }

    /** Moves to node `p`. */
    method GoTo(p: int) returns (r: TrieResult)
      requires NodeOk(bytes, p) && NodeSorted(bytes, p)
      modifies this
      ensures Valid() && Rest() == Entries(bytes, p) && r == Report(Rest())
    {
      assert 0 <= p < |bytes|;
      hide NodeOk, NodeSorted, Entries;
      pos, remaining := p, -1;
      assert bytes[p..p] == [];
      PrefixedNothing(Entries(bytes, p));
      ReportNode(bytes, p);
      var node := bytes[p];
      r := if node < MIN_VALUE_LEAD then NoValue else if IsFinal(node) then FinalValue else IntermediateValue;
    }

    /** Finds the outbound edge for a byte: binary search, then linear search. */
    method BranchNext(p0: int, length0: nat, inByte: Byte) returns (r: TrieResult)
      requires BranchOk(bytes, p0, length0) && 2 <= length0 && BranchSorted(bytes, p0, length0, 0, 0x100)
      modifies this
      ensures Valid() && Rest() == Derive(BranchEntries(bytes, p0, length0), inByte) && r == Report(Rest())
    {
      var p, length := p0, length0;
      ghost var lo: int, hi: int := 0, 0x100;
      hide BranchEntries, Derive, Report, Entries, JumpByDelta, SkipDelta;
      while length > MAX_BRANCH_LINEAR_SUB_NODE_LENGTH
        invariant 2 <= length && BranchOk(bytes, p, length) && BranchSorted(bytes, p, length, lo, hi)
        invariant Derive(BranchEntries(bytes, p, length), inByte) == Derive(BranchEntries(bytes, p0, length0), inByte)
      {
        DeriveSplit(bytes, p, length, lo, hi, inByte);
        if inByte < bytes[p] {
          hi := bytes[p];
          p := JumpByDelta(bytes, p + 1);
          length := length / 2;
        } else {
          lo := bytes[p];
          p := SkipDelta(bytes, p + 1);
          length := length - length / 2;
        }
      }
      r := LinearSearch(p, length, lo, hi, inByte);
    }

    method LinearSearch(p0: int, length0: nat, ghost lo0: int, ghost hi: int, inByte: Byte) returns (r: TrieResult)
      requires BranchOk(bytes, p0, length0) && 2 <= length0 <= MAX_BRANCH_LINEAR_SUB_NODE_LENGTH
      requires BranchSorted(bytes, p0, length0, lo0, hi)
      modifies this
      ensures Valid() && Rest() == Derive(BranchEntries(bytes, p0, length0), inByte) && r == Report(Rest())
    {
      hide BranchEntries, Derive, Report, Entries, ValueOf, AfterValue;
      var p, length := p0, length0;
      ghost var lo := lo0;
      while length > 1
        invariant 1 <= length <= MAX_BRANCH_LINEAR_SUB_NODE_LENGTH
        invariant BranchOk(bytes, p, length) && BranchSorted(bytes, p, length, lo, hi)
        invariant Derive(BranchEntries(bytes, p, length), inByte) == Derive(BranchEntries(bytes, p0, length0), inByte)
      {
        DeriveEdge(bytes, p, length, lo, hi, inByte);
        if inByte == bytes[p] {
          r := TakeEdge(p, length);
          return;
        }
        lo := bytes[p] as int + 1;
        p := AfterValue(bytes, p + 1);
        length := length - 1;
      }
      DeriveLast(bytes, p, inByte);
      if inByte == bytes[p] {
        r := GoTo(p + 1);
      } else {
        Stop();
        r := ReportNothing();
      }
    }

    method ReportNothing() returns (r: TrieResult)
      ensures r == Report([])
    {
      r := NoMatch;
    }

    /** Follows the edge at `p`: to its final value, or by its jump delta. */
    method TakeEdge(p: int, ghost length: nat) returns (r: TrieResult)
      requires BranchOk(bytes, p, length) && 2 <= length <= MAX_BRANCH_LINEAR_SUB_NODE_LENGTH
      requires IsFinal(bytes[p + 1]) || NodeSorted(bytes, EdgeTarget(bytes, p))
      modifies this
      ensures Valid() && r == Report(Rest())
      ensures Rest() == if IsFinal(bytes[p + 1]) then [Entry([], ValueOf(bytes, p + 1))]
                        else Entries(bytes, EdgeTarget(bytes, p))
    {
      EdgeParts(bytes, p, length);
      var node := bytes[p + 1];
      if IsFinal(node) {
        FinalNode(bytes, p + 1);
        r := GoTo(p + 1);
      } else {
        var delta := ReadValue(bytes, p + 2, node / 2);
        r := GoTo(AfterValue(bytes, p + 1) + delta);
      }
    }

    method NextImpl(p0: int, inByte: Byte) returns (r: TrieResult)
      requires NodeOk(bytes, p0) && NodeSorted(bytes, p0)
      modifies this
      ensures Valid() && Rest() == Derive(Entries(bytes, p0), inByte) && r == Report(Rest())
    {
      hide BranchEntries, Derive, Report, ValueOf, AfterValue;
      var p := p0;
      while true
        invariant NodeOk(bytes, p) && NodeSorted(bytes, p)
        invariant Derive(Entries(bytes, p), inByte) == Derive(Entries(bytes, p0), inByte)
        decreases |bytes| - p
      {
        var node := bytes[p];
        if node < MIN_LINEAR_MATCH {
          r := BranchNext(BranchStart(bytes, p), BranchLength(bytes, p), inByte);
          return;
        } else if node < MIN_VALUE_LEAD {
          r := LinearFirst(p, inByte);
          return;
        }
        DeriveValue(bytes, p, inByte);
        if IsFinal(node) { break; }
        p := AfterValue(bytes, p);
      }
      Stop();
      r := ReportNothing();
    }

    /** Matches the first byte of a linear-match node. */
    method LinearFirst(p: int, inByte: Byte) returns (r: TrieResult)
      requires NodeOk(bytes, p) && NodeSorted(bytes, p) && MIN_LINEAR_MATCH <= bytes[p] < MIN_VALUE_LEAD
      modifies this
      ensures Valid() && Rest() == Derive(Entries(bytes, p), inByte) && r == Report(Rest())
    {
      hide Derive, Report;
      DerivePrefixed(bytes[p + 1..AfterLinear(bytes, p)], Entries(bytes, AfterLinear(bytes, p)), inByte);
      pos, remaining := p + 1, bytes[p] as int - MIN_LINEAR_MATCH;
      r := MatchPending(inByte);
    }

    /** Matches one byte inside a linear-match node. */
    method MatchPending(inByte: Byte) returns (r: TrieResult)
      requires Valid() && 0 <= pos && 0 <= remaining
      modifies this
      ensures Valid() && Rest() == Derive(old(Rest()), inByte) && r == Report(Rest())
    {
      hide Derive, Report, NodeOk, NodeSorted, Entries;
      ghost var m, next := bytes[pos..pos + remaining + 1], pos + remaining + 1;
      DerivePrefixed(m, Entries(bytes, next), inByte);
      if inByte == bytes[pos] {
        pos, remaining := pos + 1, remaining - 1;
        assert m[1..] == bytes[pos..next];
        r := ReportHere();
      } else {
        Stop();
        r := ReportNothing();
      }
    }

    /** What the current state reports. */
    method ReportHere() returns (r: TrieResult)
      requires Valid() && 0 <= pos
      ensures r == Report(Rest())
    {
      var next := pos + remaining + 1;
      EntriesNonEmpty(bytes, next);
      ReportNode(bytes, next);
      PrefixedNothing(Entries(bytes, next));
      hide NodeOk, NodeSorted, Entries;
      if remaining < 0 {
        assert bytes[pos..next] == [];
        var node := bytes[pos];
        r := if node < MIN_VALUE_LEAD then NoValue else if IsFinal(node) then FinalValue else IntermediateValue;
      } else {
        assert bytes[pos..next] != [];
        r := NoValue;
      }
    }

    /** What the trie reports for the string matched so far. */
    method Current() returns (r: TrieResult)
      requires Valid()
      ensures r == Report(Rest())
    {
      if pos < 0 {
        r := NoMatch;
      } else {
        r := ReportHere();
      }
    }

    /** Matches one byte: the state then holds exactly what follows that byte, and the result says so. */
    method Next(inByte: Byte) returns (r: TrieResult)
      requires Valid()
      modifies this
      ensures Valid() && Rest() == Derive(old(Rest()), inByte) && r == Report(Rest())
    {
      if pos < 0 { return NoMatch; }
      if remaining >= 0 {
        r := MatchPending(inByte);
        return;
      }
      PrefixedNothing(Entries(bytes, pos));
      assert bytes[pos..pos] == [];
      r := NextImpl(pos, inByte);
    }

    /** The value of the string matched so far. */
    method GetValue() returns (v: int)
      requires Valid() && (Report(Rest()) == FinalValue || Report(Rest()) == IntermediateValue)
      ensures v == Rest()[0].value
    {
      var next := pos + remaining + 1;
      EntriesNonEmpty(bytes, next);
      if bytes[next] < MIN_VALUE_LEAD { NoValueFirstBytes(bytes, next); }
      v := ReadValue(bytes, pos + 1, bytes[pos] / 2);
    }
  }

  lemma FinalNode(s: seq<Byte>, p: int)
    requires ValueAt(s, p) && IsFinal(s[p])
    ensures NodeOk(s, p) && NodeSorted(s, p) && Entries(s, p) == [Entry([], ValueOf(s, p))]
  {
  }
}
