/**
 Building a trie from sorted strings: which bytes the builder writes, node by node, and that they hold exactly
 the strings and values they were built from.
 */
module TrieBuild {
  import opened Basics
  import opened TrieFormat
  import opened TrieOrder
  import opened TrieWriter

  /** A difference of offsets, or a value, in 32 bits. */
  function Int32Of(x: int): Int32 { Signed32(x % 0x1_0000_0000) }

  lemma Int32OfSelf(x: int)
    requires InInt32(x)
    ensures Int32Of(x) == x
  {
  }

  // ----- looking at the elements

  /** The first unit of a string. */
  function Unit(e: Entry): Byte { if e.key == [] then 0 else e.key[0] }

  /** How many elements from the first on start with the same unit. */
  function FirstRun(es: seq<Entry>): (n: nat)
    requires es != []
    ensures 1 <= n <= |es| && (forall k :: 0 <= k < n ==> Unit(es[k]) == Unit(es[0]))
    ensures n < |es| ==> Unit(es[n]) != Unit(es[0])
  {
    RunFrom(es, 1)
  }

  function RunFrom(es: seq<Entry>, i: nat): (n: nat)
    requires 1 <= i <= |es| && forall k :: 0 <= k < i ==> Unit(es[k]) == Unit(es[0])
    ensures i <= n <= |es| && (forall k :: 0 <= k < n ==> Unit(es[k]) == Unit(es[0]))
    ensures n < |es| ==> Unit(es[n]) != Unit(es[0])
    decreases |es| - i
  {
    if i < |es| && Unit(es[i]) == Unit(es[0]) then RunFrom(es, i + 1) else i
  }

  /** How many different units elements start with. */
  function CountUnits(es: seq<Entry>): (n: nat)
    ensures n <= |es| && (n == 0 <==> es == [])
  {
    if es == [] then 0 else 1 + CountUnits(es[FirstRun(es)..])
  }

  /** The index after the elements of the first `n` units. */
  function SkipUnits(es: seq<Entry>, n: nat): (i: nat)
    requires n <= CountUnits(es)
    ensures i <= |es| && (i == 0 <==> n == 0) && (i == |es| <==> n == CountUnits(es))
    ensures CountUnits(es[..i]) == n && CountUnits(es[i..]) == CountUnits(es) - n
  {
    if n == 0 then
      assert es[0..] == es;
      0
    else
      var r := FirstRun(es);
      var i := r + SkipUnits(es[r..], n - 1);
      SkipUnitsStep(es, n, i);
      i
  }

  /** Elements without their first `n` units. */
  function Dropped(es: seq<Entry>, n: nat): (ds: seq<Entry>)
    ensures |ds| == |es|
  {
    seq(|es|, k requires 0 <= k < |es| => Entry(es[k].key[if n <= |es[k].key| then n else |es[k].key|..], es[k].value))
  }

  function Size(es: seq<Entry>): nat {
    if es == [] then 0 else |es[0].key| + 1 + Size(es[1..])
  }

  lemma {:induction false} SizeParts(es: seq<Entry>, i: nat)
    requires i <= |es|
    ensures Size(es) == Size(es[..i]) + Size(es[i..])
  {
    if i == 0 {
      assert es[0..] == es;
    } else {
      SizeParts(es[1..], i - 1);
      assert es[1..][..i - 1] == es[..i][1..] && es[1..][i - 1..] == es[i..];
    }
  }

  lemma {:induction false} SizeDropped(es: seq<Entry>, n: nat)
    ensures Size(Dropped(es, n)) <= Size(es)
    ensures n > 0 && es != [] && es[0].key != [] ==> Size(Dropped(es, n)) < Size(es)
  {
    if es != [] {
      SizeDropped(es[1..], n);
      assert Dropped(es, n)[1..] == Dropped(es[1..], n);
    }
  }

  lemma {:induction false} RunOfPart(es: seq<Entry>, i: nat)
    requires es != [] && FirstRun(es) <= i <= |es|
    ensures FirstRun(es[..i]) == FirstRun(es)
  {
  }

  lemma SkipUnitsStep(es: seq<Entry>, n: nat, i: nat)
    requires es != [] && 0 < n <= CountUnits(es) && i <= |es|
    requires var r := FirstRun(es); r <= i && CountUnits(es[r..][..i - r]) == n - 1
    requires var r := FirstRun(es); CountUnits(es[r..][i - r..]) == CountUnits(es) - n
    ensures CountUnits(es[..i]) == n && CountUnits(es[i..]) == CountUnits(es) - n
  {
    hide FirstRun, CountUnits;
    var r := FirstRun(es);
    RunOfPart(es, i);
    CountStep(es);
    CountStep(es[..i]);
    assert es[..i][r..] == es[r..][..i - r] && es[r..][i - r..] == es[i..];
  }

  lemma CountStep(es: seq<Entry>)
    requires es != []
    ensures CountUnits(es) == 1 + CountUnits(es[FirstRun(es)..])
  {
  }

  /** Length of the longest common beginning. */
  function Common(a: seq<Byte>, b: seq<Byte>): (n: nat)
    ensures n <= |a| && n <= |b| && a[..n] == b[..n]
  {
    if a == [] || b == [] || a[0] != b[0] then 0 else CommonStep(a, b); 1 + Common(a[1..], b[1..])
  }

  lemma CommonStep(a: seq<Byte>, b: seq<Byte>)
    requires a != [] && b != [] && a[0] == b[0]
    ensures forall n: nat :: n <= |a[1..]| && n <= |b[1..]| && a[1..][..n] == b[1..][..n] ==> a[..1 + n] == b[..1 + n]
  {
    forall n: nat | n <= |a[1..]| && n <= |b[1..]| && a[1..][..n] == b[1..][..n] ensures a[..1 + n] == b[..1 + n] {
      assert a[..1 + n] == [a[0]] + a[1..][..n] && b[..1 + n] == [b[0]] + b[1..][..n];
    }
  }

  // ----- what is written

  /** Linear-match nodes for any number of units, sixteen at most in each. */
  function LinearBytes(units: seq<Byte>): seq<Byte>
    requires units != []
  {
    var n := |units|;
    if n <= 16 then [0x10 + n - 1] + units else LinearBytes(units[..n - 16]) + [0x1f] + units[n - 16..]
  }

  /** The head of a branch with `length` edges; long ones have a second byte. */
  function HeadBytes(length: nat): seq<Byte>
    requires 0 < length
  {
    if length <= 16 then [length - 1] else [0, (length - 1) % 0x100]
  }

  /** The only string is the unit itself. */
  predicate IsLeaf(run: seq<Entry>) { |run| == 1 && |run[0].key| == 1 }

  /** The node for elements, none of which is twice there. */
  function NodeBytes(es: seq<Entry>): seq<Byte>
    decreases Size(es), 4
  {
    if es == [] then []
    else if es[0].key == [] then
      var value := Int32Of(es[0].value);
      if |es| == 1 then EncodeValue(value, true) else EncodeValue(value, false) + MatchBytes(es[1..])
    else MatchBytes(es)
  }

  /** The node for elements that all have a first unit. */
  function MatchBytes(es: seq<Entry>): seq<Byte>
    decreases Size(es), 3
  {
    if es == [] || es[0].key == [] then []
    else
      var n := Common(es[0].key, es[|es| - 1].key);
      if n > 0 then
        SizeDropped(es, n);
        LinearBytes(es[0].key[..n]) + NodeBytes(Dropped(es, n))
      else HeadBytes(CountUnits(es)) + BranchBytes(es)
  }

  /** A branch: a split into halves, or a list of edges and the nodes they lead to. */
  function BranchBytes(es: seq<Entry>): seq<Byte>
    decreases Size(es), 2
  {
    if CountUnits(es) > 5 then
      var i := SkipUnits(es, CountUnits(es) / 2);
      SizeParts(es, i);
      var lessThan, rest := BranchBytes(es[..i]), BranchBytes(es[i..]);
      [Unit(es[i])] + EncodeJump(|rest|) + rest + lessThan
    else PairBytes(es, 0) + SubBytes(es)
  }

  function EncodeJump(n: nat): seq<Byte> {
    var delta := Int32Of(n);
    if 0 <= delta then EncodeDelta(delta) else []
  }

  /** The edges of a list; `skip` bytes of nodes come before those of its own edges. */
  function PairBytes(es: seq<Entry>, skip: nat): seq<Byte>
    decreases Size(es), 1
  {
    if es == [] || es[0].key == [] then []
    else
      var r := FirstRun(es);
      SizeParts(es, r);
      SizeDropped(es[..r], 1);
      if r == |es| then
        assert es[..r] == es;
        [Unit(es[0])] + NodeBytes(Dropped(es, 1))
      else
        FirstPair(es[..r], PairBytes(es[r..], skip + |RunBytes(es[..r])|), skip)
  }

  /** The edge for the elements `run` in front of the others. */
  function FirstPair(run: seq<Entry>, rest: seq<Byte>, skip: nat): seq<Byte>
    requires run != []
  {
    [Unit(run[0])] + EdgeValue(run, |rest| + skip) + rest
  }

  /** What stands beside the unit of an edge: its value, or how far its node is away. */
  function EdgeValue(run: seq<Entry>, jump: nat): seq<Byte>
    requires run != []
  {
    if IsLeaf(run) then EncodeValue(Int32Of(run[0].value), true) else EncodeValue(Int32Of(jump), false)
  }

  /** The node of an edge that needs one. */
  function RunBytes(run: seq<Entry>): seq<Byte>
    decreases Size(run), 0
  {
    if run == [] || run[0].key == [] || IsLeaf(run) then []
    else
      SizeDropped(run, 1);
      NodeBytes(Dropped(run, 1))
  }

  /** The nodes of all edges but the last. */
  function SubBytes(es: seq<Entry>): seq<Byte>
    decreases Size(es), 1
  {
    if es == [] then []
    else
      var r := FirstRun(es);
      SizeParts(es, r);
      if r == |es| then [] else RunBytes(es[..r]) + SubBytes(es[r..])
  }
}
