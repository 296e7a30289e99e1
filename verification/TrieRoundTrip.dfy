/** From elements to bytes and back: whatever has been built is enumerated and found again, and nothing else. */
module TrieRoundTrip {
  import opened Basics
  import opened TrieFormat
  import opened TrieOrder
  import opened TrieWriter
  import opened TrieBuild
  import opened TrieBuilt
  import opened TrieBuilder
  import TrieAgreement
  import TrieIterator

  /** The trie of sorted elements is well-formed and sorted and holds exactly them. */
  lemma {:induction false} BuiltTrie(es: seq<Entry>)
    requires Buildable(es) && |NodeBytes(es)| <= INT32_MAX
    ensures NodeOk(NodeBytes(es), 0) && NodeSorted(NodeBytes(es), 0) && Entries(NodeBytes(es), 0) == es
  {
    hide NodeBytes, Buildable;
    assert NodeBytes(es)[0..|NodeBytes(es)|] == NodeBytes(es);
    NodeBuilt(NodeBytes(es), 0, es);
  }

  /** The order of strings that sorting puts elements into. */
  ghost predicate AtMost(a: seq<Byte>, b: seq<Byte>) { a == b || Before(a, b) }

  ghost predicate Sorted(elements: seq<Entry>) {
    forall i, j :: 0 <= i < j < |elements| ==> AtMost(elements[i].key, elements[j].key)
  }

  /** Two elements have the same string. */
  ghost predicate Twice(elements: multiset<Entry>) {
    exists e, f :: SameString(elements, e, f)
  }

  ghost predicate SameString(elements: multiset<Entry>, e: Entry, f: Entry) {
    e.key == f.key && if e == f then elements[e] >= 2 else e in elements && f in elements
  }

  lemma {:induction false} BeforeTotal(a: seq<Byte>, b: seq<Byte>)
    ensures AtMost(a, b) || Before(b, a)
  {
    if a != [] && b != [] && a[0] == b[0] {
      BeforeTotal(a[1..], b[1..]);
      assert a == [a[0]] + a[1..] && b == [b[0]] + b[1..];
    }
  }

  /** The place of an element among sorted ones. */
  method FindPlace(sorted: seq<Entry>, key: seq<Byte>) returns (p: nat)
    requires Sorted(sorted)
    ensures p <= |sorted|
    ensures forall k :: 0 <= k < p ==> AtMost(sorted[k].key, key)
    ensures forall k :: p <= k < |sorted| ==> AtMost(key, sorted[k].key)
  {
    hide Before;
    p := |sorted|;
    while p > 0 && Before(key, sorted[p - 1].key)
      invariant 0 <= p <= |sorted| && forall k :: p <= k < |sorted| ==> AtMost(key, sorted[k].key)
    {
      p := p - 1;
    }
    if p > 0 {
      var last := sorted[p - 1].key;
      BeforeTotal(last, key);
      forall k | 0 <= k < p ensures AtMost(sorted[k].key, key) { AtMostTransitive(sorted[k].key, last, key); }
    }
  }

  lemma AtMostTransitive(a: seq<Byte>, b: seq<Byte>, c: seq<Byte>)
    requires AtMost(a, b) && AtMost(b, c)
    ensures AtMost(a, c)
  {
    hide Before;
    if a != b { BeforeTransitive(a, b, c); }
  }

  lemma {:induction false} InsertedSorted(s: seq<Entry>, p: nat, e: Entry)
    requires Sorted(s) && p <= |s| && (forall k :: 0 <= k < p ==> AtMost(s[k].key, e.key))
    requires forall k :: p <= k < |s| ==> AtMost(e.key, s[k].key)
    ensures Sorted(s[..p] + [e] + s[p..]) && multiset(s[..p] + [e] + s[p..]) == multiset(s) + multiset{e}
  {
    hide AtMost;
    assert s == s[..p] + s[p..];
  }

  /** Sorts elements by their strings. */
  method SortElements(elements: seq<Entry>) returns (sorted: seq<Entry>)
    ensures Sorted(sorted) && multiset(sorted) == multiset(elements)
  {
    hide AtMost;
    sorted := [];
    for i := 0 to |elements|
      invariant Sorted(sorted) && multiset(sorted) == multiset(elements[..i])
    {
      var p := FindPlace(sorted, elements[i].key);
      InsertedSorted(sorted, p, elements[i]);
      sorted := sorted[..p] + [elements[i]] + sorted[p..];
      assert elements[..i + 1] == elements[..i] + [elements[i]];
    }
    assert elements[..|elements|] == elements;
  }

  datatype BuildResult = Bytes(bytes: seq<Byte>) | IndexOutOfBounds | IllegalArgument

  /** Offsets in the trie of the elements fit 32 bits. */
  ghost predicate Fits(elements: seq<Entry>) {
    forall s :: multiset(s) == multiset(elements) && Ascending(s) ==> |NodeBytes(s)| <= INT32_MAX
  }

  /**
   Builds the bytes of a trie. There is no trie without elements, and none for two elements with the same string;
   otherwise the trie holds exactly the elements.
   */
  method BuildBytes(elements: seq<Entry>) returns (r: BuildResult)
    requires Values32(elements) && Fits(elements)
    ensures r == IndexOutOfBounds <==> elements == []
    ensures r == IllegalArgument <==> Twice(multiset(elements))
    ensures r.Bytes? ==>
              && NodeOk(r.bytes, 0) && NodeSorted(r.bytes, 0) && Ascending(Entries(r.bytes, 0))
              && multiset(Entries(r.bytes, 0)) == multiset(elements)
  {
    hide NodeBytes, NodeOk, NodeSorted, Entries, Ready, Before, Sorted, Ascending, TrieBuilder.Part, Twice, Values32;
    if |elements| == 0 {
      NoElements(elements);
      return IndexOutOfBounds;
    }
    var sorted := SortElements(elements);
    SameElements(elements, sorted);
    var prev := sorted[0].key;
    for i := 1 to |sorted|
      invariant prev == sorted[i - 1].key
      invariant forall k :: 0 < k < i ==> sorted[k - 1].key != sorted[k].key
    {
      var current := sorted[i].key;
      if prev == current {
        FoundTwice(sorted, i - 1, i);
        return IllegalArgument;
      }
      prev := current;
    }
    NoneTwice(sorted);
    WholeRange(sorted);
    BuiltTrie(sorted);
    var w := new Writer(1024);
    var _ := WriteNode(w, sorted, 0, |sorted|, 0);
    assert NodeBytes(sorted) + [] == NodeBytes(sorted);
    r := Bytes(w.bytes[w.bytes.Length - w.bytesLength..]);
  }

  lemma NoElements(elements: seq<Entry>)
    requires |elements| == 0
    ensures !Twice(multiset(elements))
  {
  }

  lemma SameElements(s: seq<Entry>, t: seq<Entry>)
    requires multiset(s) == multiset(t) && Values32(s)
    ensures |s| == |t| && Values32(t)
  {
    SameLength(s, t);
    forall k | 0 <= k < |t| ensures InInt32(t[k].value) {
      assert t[k] in multiset(s);
      assert t[k] in s;
    }
  }

  function Without(s: seq<Entry>, i: nat): seq<Entry>
    requires i < |s|
  {
    s[..i] + s[i + 1..]
  }

  lemma {:induction false} OneLess(s: seq<Entry>, i: nat)
    requires i < |s|
    ensures multiset(Without(s, i)) == multiset(s) - multiset{s[i]} && s[i] in multiset(s)
  {
    assert s == s[..i] + [s[i]] + s[i + 1..];
  }

  lemma {:induction false} FoundTwice(s: seq<Entry>, i: nat, j: nat)
    requires i < j < |s| && s[i].key == s[j].key
    ensures Twice(multiset(s))
  {
    OneLess(s, i);
    assert Without(s, i)[j - 1] == s[j];
    hide Without;
    assert s[j] in multiset(Without(s, i));
    assert SameString(multiset(s), s[i], s[j]);
  }

  lemma {:induction false} TwoPlaces(s: seq<Entry>, e: Entry, f: Entry) returns (i: nat, j: nat)
    requires SameString(multiset(s), e, f)
    ensures i < |s| && j < |s| && i != j && s[i] == e && s[j] == f
  {
    assert e in multiset(s);
    i := PlaceOf(s, e);
    OneLess(s, i);
    hide Without;
    var k := PlaceOf(Without(s, i), f);
    j := ElsewhereOf(s, i, k);
  }

  lemma PlaceOf(s: seq<Entry>, e: Entry) returns (i: nat)
    requires e in multiset(s)
    ensures i < |s| && s[i] == e
  {
    assert e in s;
    i :| i < |s| && s[i] == e;
  }

  lemma ElsewhereOf(s: seq<Entry>, i: nat, k: nat) returns (j: nat)
    requires i < |s| && k < |Without(s, i)|
    ensures j < |s| && j != i && s[j] == Without(s, i)[k]
  {
    j := if k < i then k else k + 1;
  }

  lemma {:induction false} NoneTwice(elements: seq<Entry>)
    requires Sorted(elements) && forall k :: 0 < k < |elements| ==> elements[k - 1].key != elements[k].key
    ensures Ascending(elements) && !Twice(multiset(elements))
  {
    hide Before;
    forall i, j | 0 <= i < j < |elements| ensures Before(elements[i].key, elements[j].key) {
      assert elements[i + 1 - 1].key != elements[i + 1].key;
      if i + 1 < j { BeforeTransitive(elements[i].key, elements[i + 1].key, elements[j].key); }
    }
    AscendingOnce(elements);
  }

  lemma {:induction false} AscendingOnce(elements: seq<Entry>)
    requires Ascending(elements)
    ensures !Twice(multiset(elements))
  {
    hide Before;
    forall e, f ensures !SameString(multiset(elements), e, f) {
      if SameString(multiset(elements), e, f) {
        var i, j := TwoPlaces(elements, e, f);
        BeforeIrreflexive(e.key);
        assert false;
      }
    }
  }

  lemma {:induction false} BeforeTransitive(a: seq<Byte>, b: seq<Byte>, c: seq<Byte>)
    requires Before(a, b) && (b == c || Before(b, c))
    ensures Before(a, c)
  {
    if a != [] && a[0] == b[0] && b != c && b[0] == c[0] {
      BeforeTransitive(a[1..], b[1..], c[1..]);
    }
  }

  lemma {:induction false} BeforeIrreflexive(a: seq<Byte>)
    ensures !Before(a, a)
  {
    if a != [] { BeforeIrreflexive(a[1..]); }
  }

  lemma {:induction false} WholeRange(elements: seq<Entry>)
    requires Buildable(elements)
    ensures Ready(elements, 0, |elements|, 0) && TrieBuilder.Part(elements, 0, |elements|, 0) == elements
  {
    var part := TrieBuilder.Part(elements, 0, |elements|, 0);
    forall k | 0 <= k < |elements| ensures part[k] == elements[k] {
      assert elements[k].key[0..] == elements[k].key;
    }
  }

  /** Only one order of elements is ascending. */
  lemma {:induction false} AscendingUnique(s: seq<Entry>, t: seq<Entry>)
    requires Ascending(s) && Ascending(t) && multiset(s) == multiset(t)
    ensures s == t
    decreases |s|
  {
    hide Ascending;
    SameLength(s, t);
    if s != [] {
      FirstSame(s, t);
      RestOf(s);
      RestOf(t);
      PartAscending(s, 1);
      PartAscending(t, 1);
      AscendingUnique(s[1..], t[1..]);
      assert s == [s[0]] + s[1..] && t == [t[0]] + t[1..];
    }
  }

  lemma {:induction false} RestOf(s: seq<Entry>)
    requires s != []
    ensures multiset(s[1..]) == multiset(s) - multiset{s[0]}
  {
    OneLess(s, 0);
    assert Without(s, 0) == s[1..];
  }

  lemma SameLength(s: seq<Entry>, t: seq<Entry>)
    requires multiset(s) == multiset(t)
    ensures |s| == |t|
  {
    assert |multiset(s)| == |multiset(t)|;
  }

  lemma {:induction false} FirstSame(s: seq<Entry>, t: seq<Entry>)
    requires Ascending(s) && Ascending(t) && multiset(s) == multiset(t) && s != [] && t != []
    ensures s[0] == t[0]
  {
    hide Before;
    assert s[0] in multiset(s) && t[0] in multiset(t);
    var i := PlaceOf(t, s[0]);
    var j := PlaceOf(s, t[0]);
    if 0 < i && 0 < j {
      BeforeTransitive(s[0].key, t[0].key, s[0].key);
      BeforeIrreflexive(s[0].key);
      assert false;
    }
  }

  lemma {:induction false} OnlyThese(es: seq<Entry>)
    requires Ascending(es) && |NodeBytes(es)| <= INT32_MAX
    ensures Fits(es) && !Twice(multiset(es))
  {
    hide NodeBytes, Before, Ascending;
    forall s | multiset(s) == multiset(es) && Ascending(s) ensures |NodeBytes(s)| <= INT32_MAX {
      AscendingUnique(s, es);
    }
    AscendingOnce(es);
  }

  /** What has been built is delivered again, string by string, in ascending order. */
  method BuildAndEnumerate(elements: seq<Entry>) returns (r: BuildResult, entries: seq<Entry>)
    requires Values32(elements) && Fits(elements)
    requires forall k :: 0 <= k < |elements| ==> |elements[k].key| <= 0xffff
    ensures r.Bytes? <==> elements != [] && !Twice(multiset(elements))
    ensures r.Bytes? ==> Ascending(entries) && multiset(entries) == multiset(elements)
  {
    hide NodeBytes, NodeOk, NodeSorted, Entries, Ascending, Twice, Fits;
    r := BuildBytes(elements);
    entries := [];
    if r.Bytes? {
      ShortStrings(elements, Entries(r.bytes, 0));
      entries := TrieAgreement.Enumerate(r.bytes);
    } else {
      NotBoth(elements);
    }
  }

  lemma NotBoth(elements: seq<Entry>)
    ensures elements == [] ==> !Twice(multiset(elements))
  {
  }

  lemma ShortStrings(s: seq<Entry>, t: seq<Entry>)
    requires multiset(s) == multiset(t) && forall k :: 0 <= k < |s| ==> |s[k].key| <= 0xffff
    ensures TrieIterator.KeysFit(t)
  {
    forall k | 0 <= k < |t| ensures |t[k].key| <= 0xffff {
      assert t[k] in multiset(s);
      assert t[k] in s;
    }
  }

  /** A string is found exactly if it is one of the elements, with the value of that element. */
  method BuildAndFind(elements: seq<Entry>, key: seq<Byte>) returns (r: BuildResult, found: bool, value: int)
    requires Values32(elements) && Fits(elements)
    ensures r.Bytes? <==> elements != [] && !Twice(multiset(elements))
    ensures r.Bytes? && found ==> Entry(key, value) in elements
    ensures r.Bytes? && !found ==> forall v :: Entry(key, v) !in elements
  {
    hide NodeBytes, NodeOk, NodeSorted, Entries, Ascending, Twice, Fits;
    r := BuildBytes(elements);
    found, value := false, 0;
    if r.Bytes? {
      found, value := TrieAgreement.Find(r.bytes, key);
      SameMembers(elements, Entries(r.bytes, 0));
    } else {
      NotBoth(elements);
    }
  }

  lemma SameMembers(s: seq<Entry>, t: seq<Entry>)
    requires multiset(s) == multiset(t)
    ensures forall e :: e in s <==> e in t
  {
    forall e ensures e in s <==> e in t { assert e in multiset(s) <==> e in multiset(t); }
  }

  // ----- layouts

  /** A single string of at most 16 units: number of units less one plus 0x10, the units, the value. */
  lemma {:induction false} OneString(units: seq<Byte>, value: Int32)
    requires 1 <= |units| <= 16
    ensures var bytes := [0x0f + |units|] + units + EncodeValue(value, true);
            NodeBytes([Entry(units, value)]) == bytes && NodeOk(bytes, 0) && Entries(bytes, 0) == [Entry(units, value)]
  {
    var es := [Entry(units, value)];
    var bytes := [0x0f + |units|] + units + EncodeValue(value, true);
    var rest := Dropped(es, |units|);
    hide EncodeValue, NodeOk, Entries;
    CommonAll(units);
    assert units[|units|..] == [] && units[..|units|] == units;
    assert rest == [Entry([], value)];
    Int32OfSelf(value);
    assert NodeBytes(rest) == EncodeValue(value, true);
    assert NodeBytes(es) == MatchBytes(es) == LinearBytes(units) + NodeBytes(rest);
    SmallValue(value);
    BuiltTrie(es);
  }

  lemma {:induction false} CommonAll(a: seq<Byte>)
    ensures Common(a, a) == |a|
  {
    if a != [] { CommonAll(a[1..]); }
  }

  lemma SmallValue(value: Int32)
    ensures |EncodeValue(value, true)| <= 5
  {
  }

  /** All strings have one unit. */
  ghost predicate Letters(es: seq<Entry>) {
    Buildable(es) && forall k :: 0 <= k < |es| ==> |es[k].key| == 1
  }

  lemma {:induction false} LettersDiffer(es: seq<Entry>, i: nat, j: nat)
    requires Letters(es) && i < j < |es|
    ensures es[i].key[0] < es[j].key[0]
  {
    var a, b := es[i].key, es[j].key;
    assert Before(a, b) && !Before(a[1..], b[1..]);
  }

  lemma {:induction false} CountLetters(es: seq<Entry>)
    requires Letters(es)
    ensures FirstRun(es) == 1 && CountUnits(es) == |es|
    decreases |es|
  {
    if |es| > 1 {
      LettersDiffer(es, 0, 1);
      RunIs(es, 1);
      ElementsParts(es, 1);
      CountLetters(es[1..]);
    }
  }

  /**
   A branch on single units: its lead byte is the number of units less one, or zero with that number in the next byte
   if there are more than 16.
   */
  lemma {:induction false} LetterBranch(es: seq<Entry>)
    requires Letters(es) && 2 <= |es| <= 0x100 && |NodeBytes(es)| <= INT32_MAX
    ensures var bytes := NodeBytes(es);
            && NodeOk(bytes, 0) && Entries(bytes, 0) == es
            && (|es| <= 16 ==> bytes[0] == |es| - 1)
            && (|es| > 16 ==> bytes[0] == 0 && bytes[1] == |es| - 1)
  {
    hide BranchBytes, NodeBytes, NodeOk, Entries, NodeSorted, CountUnits;
    BuiltTrie(es);
    LetterHead(es);
  }

  lemma {:induction false} LetterHead(es: seq<Entry>)
    requires Letters(es) && 2 <= |es|
    ensures CountUnits(es) == |es| && NodeBytes(es) == HeadBytes(|es|) + BranchBytes(es)
  {
    hide BranchBytes, HeadBytes;
    CountLetters(es);
    LettersDiffer(es, 0, |es| - 1);
    assert Common(es[0].key, es[|es| - 1].key) == 0;
    assert NodeBytes(es) == MatchBytes(es);
  }

  /** The units of a list of final values, each with its value. */
  function LetterPairs(es: seq<Entry>): seq<Byte>
    requires Values32(es) && forall k :: 0 <= k < |es| ==> es[k].key != []
  {
    if es == [] then []
    else
      assert InInt32(es[0].value);
      [es[0].key[0]] + EncodeValue(es[0].value, true) + LetterPairs(es[1..])
  }

  /** Up to five units need no split: the list is all there is. */
  lemma {:induction false} LetterList(es: seq<Entry>)
    requires Letters(es) && 2 <= |es| <= 5
    ensures var bytes := [|es| - 1] + LetterPairs(es);
            NodeBytes(es) == bytes && NodeOk(bytes, 0) && Entries(bytes, 0) == es
  {
    hide BranchBytes, NodeBytes, NodeOk, Entries, NodeSorted, LetterPairs;
    LetterHead(es);
    ShortBranch(es);
    BuiltTrie(es);
  }

  lemma {:induction false} PairsAre(es: seq<Entry>, skip: nat)
    requires Letters(es)
    ensures PairBytes(es, skip) == LetterPairs(es) && SubBytes(es) == [] && |LetterPairs(es)| <= 6 * |es|
    decreases |es|
  {
    hide EncodeValue, Ascending, PairBytes, SubBytes;
    CountLetters(es);
    var e := es[0];
    Int32OfSelf(e.value);
    SmallValue(e.value);
    if |es| == 1 {
      LastPair(es, skip);
      assert LetterPairs(es[1..]) == [];
    } else {
      ElementsParts(es, 1);
      PairsAre(es[1..], skip);
      assert es[..1] == [e] && IsLeaf(es[..1]);
      EdgeShape(es, skip);
    }
  }

  lemma {:induction false} LastPair(es: seq<Entry>, skip: nat)
    requires Letters(es) && |es| == 1 && FirstRun(es) == 1
    ensures PairBytes(es, skip) == [es[0].key[0]] + EncodeValue(es[0].value, true) && SubBytes(es) == []
  {
    hide EncodeValue;
    var e := es[0];
    Int32OfSelf(e.value);
    assert e.key[1..] == [] && Dropped(es, 1) == [Entry([], e.value)];
  }

  lemma {:induction false} SkipLetters(es: seq<Entry>, n: nat)
    requires Letters(es) && n <= |es| == CountUnits(es)
    ensures SkipUnits(es, n) == n
    decreases n
  {
    if n > 0 {
      CountLetters(es);
      if |es| > 1 {
        ElementsParts(es, 1);
        CountLetters(es[1..]);
        SkipLetters(es[1..], n - 1);
      }
    }
  }

  lemma {:induction false} ShortBranch(es: seq<Entry>)
    requires Letters(es) && |es| <= 5
    ensures BranchBytes(es) == LetterPairs(es) && |LetterPairs(es)| <= 30
  {
    hide PairBytes, SubBytes, EncodeValue;
    CountLetters(es);
    PairsAre(es, 0);
  }

  /**
   Six to ten units are split once: the unit in the middle, the number of bytes of the upper half to jump over, the
   upper half, the lower half.
   */
  lemma {:induction false} LetterSplit(es: seq<Entry>)
    requires Letters(es) && 6 <= |es| <= 10
    ensures var h := |es| / 2;
            var lower, upper := LetterPairs(es[..h]), LetterPairs(es[h..]);
            |upper| <= 30
            && var bytes := [|es| - 1, es[h].key[0], |upper|] + upper + lower;
               NodeBytes(es) == bytes && NodeOk(bytes, 0) && Entries(bytes, 0) == es
  {
    hide BranchBytes, NodeBytes, NodeOk, Entries, NodeSorted, LetterPairs, CountUnits;
    LetterHead(es);
    LetterHalves(es);
    BuiltTrie(es);
  }

  lemma {:induction false} LetterHalves(es: seq<Entry>)
    requires Letters(es) && 6 <= |es| <= 10 && CountUnits(es) == |es|
    ensures var h := |es| / 2;
            var lower, upper := LetterPairs(es[..h]), LetterPairs(es[h..]);
            |lower| <= 30 && |upper| <= 30 && BranchBytes(es) == [es[h].key[0], |upper|] + upper + lower
  {
    hide LetterPairs, CountUnits, BranchBytes, Size, SkipUnits, Ascending, EncodeJump;
    var h := |es| / 2;
    SkipLetters(es, h);
    HalvesShape(es);
    ShortBranch(es[..h]);
    ShortBranch(es[h..]);
    JumpIsDelta(|LetterPairs(es[h..])|);
    DeltaLayout(|LetterPairs(es[h..])|);
  }

  /** The strings `a`, `b` and `c` with the values 1, 2 and 3, and the same without the builder. */
  lemma ThreeLetters()
    ensures var es := [Entry([0x61], 1), Entry([0x62], 2), Entry([0x63], 3)];
            var bytes := [0x02, 0x61, 0x23, 0x62, 0x25, 0x63, 0x27];
            NodeBytes(es) == bytes && NodeOk(bytes, 0) && Entries(bytes, 0) == es
  {
    hide NodeOk, Entries, NodeBytes;
    var a, b, c := Entry([0x61], 1), Entry([0x62], 2), Entry([0x63], 3);
    LetterList([a, b, c]);
    assert [a, b, c][1..] == [b, c] && [b, c][1..] == [c] && [c][1..] == [];
    assert LetterPairs([c]) == [0x63, 0x27];
    assert LetterPairs([b, c]) == [0x62, 0x25, 0x63, 0x27];
    assert LetterPairs([a, b, c]) == [0x61, 0x23, 0x62, 0x25, 0x63, 0x27];
  }
}
