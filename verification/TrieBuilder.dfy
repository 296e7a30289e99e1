/** The builder at work: it looks at ranges of the sorted elements and writes nodes from their ends. */
module TrieBuilder {
  import opened Basics
  import opened TrieFormat
  import opened TrieOrder
  import opened TrieWriter
  import opened TrieBuild
  import opened TrieBuilt

  // ----- ranges of elements

  /** The elements from `start` to `limit` without their first `u` units. */
  ghost function Part(elements: seq<Entry>, start: int, limit: int, u: nat): (es: seq<Entry>)
    requires 0 <= start <= limit <= |elements|
    ensures |es| == limit - start
  {
    Dropped(elements[start..limit], u)
  }

  ghost predicate LongEnough(elements: seq<Entry>, start: int, limit: int, u: nat)
    requires 0 <= start <= limit <= |elements|
  {
    forall k :: start <= k < limit ==> u <= |elements[k].key|
  }

  lemma {:induction false} PartAt(elements: seq<Entry>, start: int, limit: int, u: nat, i: int)
    requires 0 <= start <= i < limit <= |elements| && LongEnough(elements, start, limit, u)
    ensures Part(elements, start, limit, u)[i - start] == Entry(elements[i].key[u..], elements[i].value)
  {
  }

  /** What the parts of a range are. */
  lemma {:induction false} PartParts(elements: seq<Entry>, start: int, limit: int, u: nat, i: int)
    requires 0 <= start <= i <= limit <= |elements|
    ensures Part(elements, start, limit, u)[..i - start] == Part(elements, start, i, u)
    ensures Part(elements, start, limit, u)[i - start..] == Part(elements, i, limit, u)
  {
  }

  lemma {:induction false} PartDropped(elements: seq<Entry>, start: int, limit: int, u: nat, n: nat)
    requires 0 <= start <= limit <= |elements| && LongEnough(elements, start, limit, u + n)
    ensures Dropped(Part(elements, start, limit, u), n) == Part(elements, start, limit, u + n)
  {
    var es := Part(elements, start, limit, u);
    forall k | 0 <= k < |es| ensures Dropped(es, n)[k] == Part(elements, start, limit, u + n)[k] {
      assert elements[start + k].key[u..][n..] == elements[start + k].key[u + n..];
    }
  }

  lemma {:induction false} RunIs(es: seq<Entry>, n: nat)
    requires 1 <= n <= |es| && (forall k :: 0 <= k < n ==> Unit(es[k]) == Unit(es[0]))
    requires n < |es| ==> Unit(es[n]) != Unit(es[0])
    ensures FirstRun(es) == n
  {
  }

  // ----- looking at the elements

  /** Where the first and the last string of a range stop being the same. */
  method GetLimitOfLinearMatch(elements: seq<Entry>, first: nat, last: nat, byteIndex: nat) returns (limit: nat)
    requires first < |elements| && last < |elements|
    requires byteIndex < |elements[first].key| && byteIndex < |elements[last].key|
    requires elements[first].key[byteIndex] == elements[last].key[byteIndex]
    requires var a, b := elements[first].key[byteIndex..], elements[last].key[byteIndex..]; a == b || Before(a, b)
    ensures limit == byteIndex + Common(elements[first].key[byteIndex..], elements[last].key[byteIndex..])
  {
    hide Before, Common;
    var a, b := elements[first].key, elements[last].key;
    limit := byteIndex + 1;
    CommonFrom(a, b, byteIndex);
    while limit < |a| && a[limit] == b[limit]
      invariant byteIndex < limit <= |a| && limit <= |b| && (limit < |a| ==> limit < |b|)
      invariant a[limit..] == b[limit..] || Before(a[limit..], b[limit..])
      invariant byteIndex + Common(a[byteIndex..], b[byteIndex..]) == limit + Common(a[limit..], b[limit..])
    {
      CommonFrom(a, b, limit);
      limit := limit + 1;
    }
    CommonEnd(a, b, limit);
  }

  lemma {:induction false} CommonFrom(a: seq<Byte>, b: seq<Byte>, i: nat)
    requires i < |a| && i < |b| && a[i] == b[i]
    ensures a[i..] == b[i..] || Before(a[i..], b[i..]) ==> a[i + 1..] == b[i + 1..] || Before(a[i + 1..], b[i + 1..])
    ensures a[i..] == b[i..] || Before(a[i..], b[i..]) ==> i + 1 < |a| ==> i + 1 < |b|
    ensures Common(a[i..], b[i..]) == 1 + Common(a[i + 1..], b[i + 1..])
  {
    assert a[i..][1..] == a[i + 1..] && b[i..][1..] == b[i + 1..];
  }

  lemma {:induction false} CommonEnd(a: seq<Byte>, b: seq<Byte>, i: nat)
    requires i <= |a| && i <= |b| && (i < |a| && i < |b| ==> a[i] != b[i])
    ensures Common(a[i..], b[i..]) == 0
  {
  }

  /** Number of different units after the first `u`. */
  method CountElementUnits(elements: seq<Entry>, start: nat, limit: nat, u: nat) returns (length: nat)
    requires start < limit <= |elements| && LongEnough(elements, start, limit, u + 1)
    ensures length == CountUnits(Part(elements, start, limit, u))
  {
    hide Part, CountUnits, FirstRun;
    length := 0;
    var i := start;
    while i < limit
      invariant start <= i <= limit
      invariant length + CountUnits(Part(elements, i, limit, u)) == CountUnits(Part(elements, start, limit, u))
    {
      var j := i;
      i := EndOfRun(elements, j, limit, u);
      PartParts(elements, j, limit, u, i);
      CountStep(Part(elements, j, limit, u));
      length := length + 1;
    }
  }

  /** The end of the elements with the same unit. */
  method EndOfRun(elements: seq<Entry>, start: nat, limit: nat, u: nat) returns (i: nat)
    requires start < limit <= |elements| && LongEnough(elements, start, limit, u + 1)
    ensures i == start + FirstRun(Part(elements, start, limit, u))
  {
    ghost var es := Part(elements, start, limit, u);
    var byte := elements[start].key[u];
    i := start + 1;
    PartAt(elements, start, limit, u, start);
    while i < limit && byte == elements[i].key[u]
      invariant start < i <= limit
      invariant forall k :: 0 <= k < i - start ==> Unit(es[k]) == Unit(es[0])
    {
      PartAt(elements, start, limit, u, i);
      i := i + 1;
    }
    if i < limit { PartAt(elements, start, limit, u, i); }
    RunIs(es, i - start);
  }

  /** The next element with another unit, which there is. */
  method IndexOfElementWithNextUnit(elements: seq<Entry>, start: nat, ghost limit: nat, u: nat) returns (i: nat)
    requires start < limit <= |elements| && LongEnough(elements, start, limit, u + 1)
    requires FirstRun(Part(elements, start, limit, u)) < limit - start
    ensures i == start + FirstRun(Part(elements, start, limit, u))
  {
    ghost var es := Part(elements, start, limit, u);
    ghost var r := FirstRun(es);
    var byte := elements[start].key[u];
    i := start + 1;
    PartAt(elements, start, limit, u, start);
    PartAt(elements, start, limit, u, start + r);
    while byte == elements[i].key[u]
      invariant start < i <= start + r
      decreases limit - i
    {
      i := i + 1;
    }
    PartAt(elements, start, limit, u, i);
  }

  /** Skips the elements of `count` units, after which there are more. */
  method SkipElementsBySomeUnits(elements: seq<Entry>, start: nat, ghost limit: nat, u: nat, count: nat)
    returns (i: nat)
    requires start < limit <= |elements| && LongEnough(elements, start, limit, u + 1)
    requires 0 < count < CountUnits(Part(elements, start, limit, u))
    ensures i == start + SkipUnits(Part(elements, start, limit, u), count)
  {
    hide Part, CountUnits, SkipUnits, FirstRun;
    i := start;
    var c := count;
    while c > 0
      invariant start <= i < limit && c < CountUnits(Part(elements, i, limit, u))
      invariant i + SkipUnits(Part(elements, i, limit, u), c)
             == start + SkipUnits(Part(elements, start, limit, u), count)
    {
      ghost var es := Part(elements, i, limit, u);
      SkipRest(es, c);
      PartParts(elements, i, limit, u, i + FirstRun(es));
      i := IndexOfElementWithNextUnit(elements, i, limit, u);
      c := c - 1;
    }
  }

  // ----- what is written

  /** The elements of a range can be written: sorted, and the same in the first `u` units. */
  ghost predicate Ready(elements: seq<Entry>, start: int, limit: int, u: nat) {
    && 0 <= start < limit <= |elements| && LongEnough(elements, start, limit, u)
    && Buildable(Part(elements, start, limit, u))
  }

  /** Offsets stay in 32 bits. */
  ghost predicate Room(w: Writer, b: seq<Byte>)
    reads w, w.bytes
    requires w.Valid()
  {
    |b| + |w.Content()| <= INT32_MAX
  }

  /** Breaks the units from `u` to `last` into pieces of at most 16; all but the lead byte of the first is written. */
  method WriteChunks(w: Writer, key: seq<Byte>, u: nat, last: nat) returns (length: nat)
    requires w.Valid() && u < last <= |key|
    modifies w, w.bytes
    ensures w.Valid() && (w.bytes == old(w.bytes) || fresh(w.bytes)) && 1 <= length <= 16
    ensures [0x10 + length - 1] + w.Content() == LinearBytes(key[u..last]) + old(w.Content())
  {
    hide Writer.Valid, Writer.Content, LinearBytes;
    ghost var units := key[u..last];
    length := last - u;
    assert units[..length] == units;
    while length > MAX_LINEAR_MATCH_LENGTH
      invariant w.Valid() && (w.bytes == old(w.bytes) || fresh(w.bytes)) && 1 <= length <= |units|
      invariant LinearBytes(units[..length]) + w.Content() == LinearBytes(units) + old(w.Content())
    {
      ghost var before := w.Content();
      length := length - MAX_LINEAR_MATCH_LENGTH;
      var _ := w.Write(key[u + length..u + length + MAX_LINEAR_MATCH_LENGTH]);
      var _ := w.Write([MIN_LINEAR_MATCH + MAX_LINEAR_MATCH_LENGTH - 1]);
      ChunkWritten(units, length, before);
      Slices(key, u, last, length, length + 16);
    }
    var _ := w.Write(key[u..u + length]);
    Slices(key, u, last, 0, length);
    LastChunk(units[..length]);
  }

  lemma LastChunk(units: seq<Byte>)
    requires 1 <= |units| <= 16
    ensures LinearBytes(units) == [0x10 + |units| - 1] + units
  {
  }

  lemma Slices(s: seq<Byte>, from: nat, to: nat, i: nat, j: nat)
    requires from <= to <= |s| && i <= j <= to - from
    ensures s[from..to][i..j] == s[from + i..from + j]
  {
    forall k | 0 <= k < j - i ensures s[from..to][i..j][k] == s[from + i..from + j][k] {
      assert s[from..to][i + k] == s[from + i + k];
    }
  }

  lemma {:induction false} ChunkWritten(units: seq<Byte>, length: nat, content: seq<Byte>)
    requires 0 < length && length + 16 <= |units|
    ensures LinearBytes(units[..length + 16]) + content
         == LinearBytes(units[..length]) + ([0x1f] + (units[length..length + 16] + content))
  {
    var c := units[..length + 16];
    assert c[..length] == units[..length] && c[length..] == units[length..length + 16];
  }

  method WriteValueAndType(w: Writer, hasValue: bool, value: Int32, node: Byte) returns (offset: nat)
    requires w.Valid()
    modifies w, w.bytes
    ensures w.Valid() && (w.bytes == old(w.bytes) || fresh(w.bytes)) && offset == |w.Content()|
    ensures w.Content() == (if hasValue then EncodeValue(value, false) else []) + ([node] + old(w.Content()))
  {
    hide Writer.Valid, Writer.Content, EncodeValue;
    offset := w.Write([node]);
    if hasValue {
      offset := w.WriteValueAndFinal(value, false);
    }
  }

  // ----- branches

  /** Each edge starts after the elements of the one before it. */
  ghost predicate Chained(elements: seq<Entry>, starts: seq<nat>, limit: nat, u: nat) {
    && 1 <= |starts| && limit <= |elements|
    && (forall k :: 0 <= k < |starts| ==> starts[k] < limit && LongEnough(elements, starts[k], limit, u + 1))
    && (forall k {:trigger starts[k]} :: 0 <= k < |starts| - 1 ==>
          starts[k + 1] == starts[k] + FirstRun(Part(elements, starts[k], limit, u)))
  }

  /** Where the edges of a branch start; the last one goes to `limit`. */
  ghost predicate Edges(elements: seq<Entry>, starts: seq<nat>, limit: nat, u: nat) {
    && Chained(elements, starts, limit, u)
    && FirstRun(Part(elements, starts[|starts| - 1], limit, u)) == limit - starts[|starts| - 1]
  }

  /** Which edges but the last end the only string with their unit. */
  ghost predicate Leaves(elements: seq<Entry>, starts: seq<nat>, isFinal: seq<bool>, u: nat) {
    && |starts| == |isFinal| + 1
    && forall k {:trigger isFinal[k]} :: 0 <= k < |isFinal| ==>
         && starts[k] <= starts[k + 1] <= |elements|
         && isFinal[k] == IsLeaf(Part(elements, starts[k], starts[k + 1], u))
  }

  /** The elements from edge `k` on. */
  ghost function From(elements: seq<Entry>, starts: seq<nat>, limit: nat, u: nat, k: nat): seq<Entry>
    requires k < |starts| && starts[k] <= limit <= |elements|
  {
    Part(elements, starts[k], limit, u)
  }

  /** For each unit, where its elements start and whether it ends the only string with it. */
  method FindEdges(elements: seq<Entry>, start: nat, limit: nat, u: nat, length: nat)
    returns (starts: seq<nat>, isFinal: seq<bool>)
    requires start < limit <= |elements| && LongEnough(elements, start, limit, u + 1)
    requires 2 <= length == CountUnits(Part(elements, start, limit, u))
    ensures Edges(elements, starts, limit, u) && |starts| == length && starts[0] == start
    ensures Leaves(elements, starts, isFinal, u)
  {
    hide CountUnits, FirstRun, Part, IsLeaf, Chained, Leaves, LongEnough;
    starts, isFinal := [start], [];
    OneEdge(elements, start, limit, u);
    while |isFinal| < length - 1
      invariant |starts| == |isFinal| + 1 <= length && starts[0] == start
      invariant Chained(elements, starts, limit, u) && Leaves(elements, starts, isFinal, u)
      invariant start <= starts[|isFinal|] < limit && LongEnough(elements, starts[|isFinal|], limit, u + 1)
      invariant CountUnits(Part(elements, starts[|isFinal|], limit, u)) == length - |isFinal|
    {
      var from := starts[|isFinal|];
      MoreUnits(elements, from, limit, u);
      var i := IndexOfElementWithNextUnit(elements, from, limit, u);
      NextEdge(elements, starts, isFinal, limit, u, i);
      var leaf := from == i - 1 && u + 1 == |elements[from].key|;
      starts, isFinal := starts + [i], isFinal + [leaf];
    }
    LastUnit(elements, starts[length - 1], limit, u);
  }

  lemma {:induction false} OneEdge(elements: seq<Entry>, start: nat, limit: nat, u: nat)
    requires start < limit <= |elements| && LongEnough(elements, start, limit, u + 1)
    ensures Chained(elements, [start], limit, u) && Leaves(elements, [start], [], u)
  {
  }

  lemma {:induction false} NextEdge(elements: seq<Entry>, starts: seq<nat>, isFinal: seq<bool>, limit: nat, u: nat,
                                    i: nat)
    requires Chained(elements, starts, limit, u) && Leaves(elements, starts, isFinal, u)
    requires var from := starts[|isFinal|]; from < i == from + FirstRun(Part(elements, from, limit, u)) < limit
    ensures var from := starts[|isFinal|];
            && u < |elements[from].key| && LongEnough(elements, i, limit, u + 1)
            && Chained(elements, starts + [i], limit, u)
            && Leaves(elements, starts + [i], isFinal + [from == i - 1 && u + 1 == |elements[from].key|], u)
  {
    hide Part, FirstRun, IsLeaf;
    LeafIs(elements, starts[|isFinal|], i, u);
  }

  lemma {:induction false} MoreUnits(elements: seq<Entry>, from: nat, limit: nat, u: nat)
    requires from < limit <= |elements| && 2 <= CountUnits(Part(elements, from, limit, u))
    ensures var r := FirstRun(Part(elements, from, limit, u));
            && from + r < limit
            && CountUnits(Part(elements, from + r, limit, u)) == CountUnits(Part(elements, from, limit, u)) - 1
  {
    hide Part, CountUnits, FirstRun;
    var es := Part(elements, from, limit, u);
    CountStep(es);
    PartParts(elements, from, limit, u, from + FirstRun(es));
  }

  lemma {:induction false} LastUnit(elements: seq<Entry>, from: nat, limit: nat, u: nat)
    requires from < limit <= |elements| && CountUnits(Part(elements, from, limit, u)) == 1
    ensures FirstRun(Part(elements, from, limit, u)) == limit - from
  {
    CountStep(Part(elements, from, limit, u));
  }

  lemma {:induction false} LeafIs(elements: seq<Entry>, from: nat, i: nat, u: nat)
    requires from < i <= |elements| && u < |elements[from].key|
    ensures IsLeaf(Part(elements, from, i, u)) <==> from == i - 1 && u + 1 == |elements[from].key|
  {
  }

  /** The elements of edge `k`. */
  ghost function Run(elements: seq<Entry>, starts: seq<nat>, u: nat, k: nat): seq<Entry>
    requires k + 1 < |starts| && starts[k] <= starts[k + 1] <= |elements|
  {
    Part(elements, starts[k], starts[k + 1], u)
  }

  /** Edge `k` and those after it. */
  lemma {:induction false} EdgeRanges(elements: seq<Entry>, starts: seq<nat>, limit: nat, u: nat, k: nat)
    requires Edges(elements, starts, limit, u) && k + 1 < |starts| && Ready(elements, starts[k], limit, u)
    ensures starts[k] < starts[k + 1] < limit && Ready(elements, starts[k + 1], limit, u)
    ensures LongEnough(elements, starts[k], starts[k + 1], u + 1) && u < |elements[starts[k]].key|
    ensures var es, r := From(elements, starts, limit, u, k), starts[k + 1] - starts[k];
            && r == FirstRun(es) < |es| && es[0].key != [] && es[0].key[0] == elements[starts[k]].key[u]
            && es[..r] == Run(elements, starts, u, k) && es[r..] == From(elements, starts, limit, u, k + 1)
            && Size(es[..r]) < Size(es) && Size(es[r..]) < Size(es) && FirstBytes(es, 0, 0x100)
  {
    hide FirstRun, Part, CountUnits, Ascending, Size;
    var es, r := From(elements, starts, limit, u, k), starts[k + 1] - starts[k];
    PartParts(elements, starts[k], limit, u, starts[k + 1]);
    PartAt(elements, starts[k], limit, u, starts[k]);
    forall i | 0 <= i < |es| ensures es[i].key != [] {
      PartAt(elements, starts[k], limit, u, starts[k] + i);
    }
    EdgeElements(es, 0, 0x100);
  }

  /** The node of an edge is that of its elements without the unit of the edge. */
  lemma {:induction false} EdgeNode(elements: seq<Entry>, start: nat, end: nat, u: nat, b: Byte)
    requires start < end <= |elements| && LongEnough(elements, start, end, u + 1)
    requires Buildable(Part(elements, start, end, u)) && StartWith(Part(elements, start, end, u), [b])
    ensures Ready(elements, start, end, u + 1)
    ensures Size(Part(elements, start, end, u + 1)) < Size(Part(elements, start, end, u))
    ensures var run := Part(elements, start, end, u);
            RunBytes(run) == if IsLeaf(run) then [] else NodeBytes(Part(elements, start, end, u + 1))
  {
    hide NodeBytes;
    var run := Part(elements, start, end, u);
    assert [b] <= run[0].key;
    PartDropped(elements, start, end, u, 1);
    DroppedBuildable(run, [b]);
    SizeDropped(run, 1);
  }

  /** The node that edge `k` leads to, if it is not a final value. */
  ghost function NodeOf(elements: seq<Entry>, starts: seq<nat>, isFinal: seq<bool>, u: nat, k: nat): seq<Byte>
    requires k + 1 < |starts| && k < |isFinal| && starts[k] <= starts[k + 1] <= |elements|
  {
    if isFinal[k] then [] else NodeBytes(Part(elements, starts[k], starts[k + 1], u + 1))
  }

  /** The value beside the unit of edge `k`. */
  function EdgeInt(elements: seq<Entry>, start: nat, isFinal: bool, jump: int): Int32
    requires start < |elements|
  {
    Int32Of(if isFinal then elements[start].value else jump)
  }

  /** What edge `k` adds to the nodes and to the list of edges. */
  lemma {:induction false} EdgeFacts(elements: seq<Entry>, starts: seq<nat>, isFinal: seq<bool>, limit: nat, u: nat,
                                     k: nat, skip: nat)
    requires Edges(elements, starts, limit, u) && Leaves(elements, starts, isFinal, u) && k < |isFinal|
    requires Ready(elements, starts[k], limit, u)
    ensures starts[k] < starts[k + 1] < limit && Ready(elements, starts[k + 1], limit, u)
    ensures u < |elements[starts[k]].key| && Ready(elements, starts[k], starts[k + 1], u + 1)
    ensures Size(Part(elements, starts[k], starts[k + 1], u + 1)) < Size(From(elements, starts, limit, u, k))
    ensures Size(From(elements, starts, limit, u, k + 1)) < Size(From(elements, starts, limit, u, k))
    ensures var node := NodeOf(elements, starts, isFinal, u, k);
            var es, rest := From(elements, starts, limit, u, k), From(elements, starts, limit, u, k + 1);
            var pairs := PairBytes(rest, skip + |node|);
            && SubBytes(es) == node + SubBytes(rest)
            && PairBytes(es, skip)
               == [elements[starts[k]].key[u]]
                  + EncodeValue(EdgeInt(elements, starts[k], isFinal[k], |pairs| + skip), isFinal[k]) + pairs
  {
    hide FirstRun, PairBytes, SubBytes, RunBytes, NodeBytes, EdgeValue, EncodeValue, Size, Part, StartWith, FirstBytes;
    hide Buildable, IsLeaf, CountUnits, EdgeInt, Edges, LongEnough;
    EdgeRanges(elements, starts, limit, u, k);
    var es, r := From(elements, starts, limit, u, k), starts[k + 1] - starts[k];
    EdgeElements(es, 0, 0x100);
    EdgeNode(elements, starts[k], starts[k + 1], u, es[0].key[0]);
    EdgeShape(es, skip);
    EdgeValueIs(elements, starts, isFinal, u, k);
  }

  lemma {:induction false} EdgeValueIs(elements: seq<Entry>, starts: seq<nat>, isFinal: seq<bool>, u: nat, k: nat)
    requires Leaves(elements, starts, isFinal, u) && k < |isFinal| && starts[k] < starts[k + 1] <= |elements|
    ensures isFinal[k] == IsLeaf(Run(elements, starts, u, k))
    ensures forall jump: nat ::
              EdgeValue(Run(elements, starts, u, k), jump)
              == EncodeValue(EdgeInt(elements, starts[k], isFinal[k], jump), isFinal[k])
  {
    hide EncodeValue, Int32Of;
  }

  /** All that has to be known of the edges of a list before their nodes are written. */
  ghost predicate List(elements: seq<Entry>, starts: seq<nat>, isFinal: seq<bool>, limit: nat, u: nat) {
    && Edges(elements, starts, limit, u) && Leaves(elements, starts, isFinal, u)
    && Ready(elements, starts[0], limit, u)
  }

  /** The nodes of the edges from `k` on, and how many bytes of nodes are before them. */
  ghost function Subs(elements: seq<Entry>, starts: seq<nat>, limit: nat, u: nat, k: nat): seq<Byte>
    requires k < |starts| && starts[k] <= limit <= |elements|
  {
    SubBytes(From(elements, starts, limit, u, k))
  }

  /** Later edges have less of everything. */
  lemma {:induction false} ListShrinks(elements: seq<Entry>, starts: seq<nat>, isFinal: seq<bool>, limit: nat, u: nat,
                                       k: nat)
    requires List(elements, starts, isFinal, limit, u) && k < |starts|
    ensures Ready(elements, starts[k], limit, u)
    ensures Size(From(elements, starts, limit, u, k)) <= Size(From(elements, starts, limit, u, 0))
    ensures var n := |Subs(elements, starts, limit, u, 0)| - |Subs(elements, starts, limit, u, k)|;
            0 <= n && |PairBytes(From(elements, starts, limit, u, k), n)|
                      <= |PairBytes(From(elements, starts, limit, u, 0), 0)|
    decreases k
  {
    hide Size, PairBytes, SubBytes, From, NodeOf, EdgeInt, EncodeValue, Edges;
    if k > 0 {
      ListShrinks(elements, starts, isFinal, limit, u, k - 1);
      var n := |Subs(elements, starts, limit, u, 0)| - |Subs(elements, starts, limit, u, k - 1)|;
      EdgeFacts(elements, starts, isFinal, limit, u, k - 1, n);
    }
  }

  // ----- writing nodes

  /** Writes the node for a range of elements in front of what is there; returns its distance from the end. */
  method WriteNode(w: Writer, elements: seq<Entry>, start: nat, limit: nat, u: nat) returns (offset: nat)
    requires w.Valid() && Ready(elements, start, limit, u)
    requires Room(w, NodeBytes(Part(elements, start, limit, u)))
    modifies w, w.bytes
    ensures w.Valid() && (w.bytes == old(w.bytes) || fresh(w.bytes)) && offset == |w.Content()|
    ensures w.Content() == NodeBytes(Part(elements, start, limit, u)) + old(w.Content())
    decreases Size(Part(elements, start, limit, u)), 6
  {
    hide Writer.Valid, Writer.Content, Part, NodeBytes, MatchBytes, EncodeValue, Size;
    NodeShape(elements, start, limit, u);
    var from, hasValue, value := start, false, 0;
    if u == |elements[start].key| {
      value := elements[start].value;
      from := start + 1;
      if from == limit {
        offset := w.WriteValueAndFinal(value, true);
        return;
      }
      hasValue := true;
    }
    var node := WriteUnits(w, elements, from, limit, u);
    offset := WriteValueAndType(w, hasValue, value, node);
  }

  /** What a node is, after its value. */
  lemma {:induction false} NodeShape(elements: seq<Entry>, start: nat, limit: nat, u: nat)
    requires Ready(elements, start, limit, u)
    ensures InInt32(elements[start].value)
    ensures var es := Part(elements, start, limit, u);
            if u < |elements[start].key| then
              NodeBytes(es) == MatchBytes(es) && LongEnough(elements, start, limit, u + 1)
            else if start + 1 == limit then NodeBytes(es) == EncodeValue(elements[start].value, true)
            else
              var es' := Part(elements, start + 1, limit, u);
              && NodeBytes(es) == EncodeValue(elements[start].value, false) + MatchBytes(es') && Size(es') < Size(es)
              && Ready(elements, start + 1, limit, u) && LongEnough(elements, start + 1, limit, u + 1)
  {
    hide MatchBytes, EncodeValue;
    var es := Part(elements, start, limit, u);
    PartAt(elements, start, limit, u, start);
    Int32OfSelf(elements[start].value);
    forall k | start < k < limit ensures u < |elements[k].key| {
      PartAt(elements, start, limit, u, k);
      assert Before(es[0].key, es[k - start].key);
    }
    if u == |elements[start].key| && start + 1 < limit {
      AfterEmpty(es);
      PartParts(elements, start, limit, u, start + 1);
      SizeParts(es, 1);
    }
  }

  /** Writes all of a linear-match or branch node but its lead byte, which is returned. */
  method WriteUnits(w: Writer, elements: seq<Entry>, start: nat, limit: nat, u: nat) returns (node: Byte)
    requires w.Valid() && Ready(elements, start, limit, u) && LongEnough(elements, start, limit, u + 1)
    requires Room(w, MatchBytes(Part(elements, start, limit, u)))
    modifies w, w.bytes
    ensures w.Valid() && (w.bytes == old(w.bytes) || fresh(w.bytes))
    ensures [node] + w.Content() == MatchBytes(Part(elements, start, limit, u)) + old(w.Content())
    decreases Size(Part(elements, start, limit, u)), 5
  {
    hide Writer.Valid, Writer.Content, Part, MatchBytes, Size, Buildable;
    var minUnit := elements[start].key[u];
    var maxUnit := elements[limit - 1].key[u];
    if minUnit == maxUnit {
      node := WriteLinear(w, elements, start, limit, u);
    } else {
      node := WriteBranch(w, elements, start, limit, u);
    }
  }

  method WriteLinear(w: Writer, elements: seq<Entry>, start: nat, limit: nat, u: nat) returns (node: Byte)
    requires w.Valid() && Ready(elements, start, limit, u) && LongEnough(elements, start, limit, u + 1)
    requires elements[start].key[u] == elements[limit - 1].key[u]
    requires Room(w, MatchBytes(Part(elements, start, limit, u)))
    modifies w, w.bytes
    ensures w.Valid() && (w.bytes == old(w.bytes) || fresh(w.bytes))
    ensures [node] + w.Content() == MatchBytes(Part(elements, start, limit, u)) + old(w.Content())
    decreases Size(Part(elements, start, limit, u)), 4
  {
    hide Writer.Valid, Writer.Content, Part, NodeBytes, MatchBytes, LinearBytes, Size, Buildable, Before, Common;
    LinearRange(elements, start, limit, u);
    var last := GetLimitOfLinearMatch(elements, start, limit - 1, u);
    var _ := WriteNode(w, elements, start, limit, last);
    var length := WriteChunks(w, elements[start].key, u, last);
    node := MIN_LINEAR_MATCH + length - 1;
  }

  method WriteBranch(w: Writer, elements: seq<Entry>, start: nat, limit: nat, u: nat) returns (node: Byte)
    requires w.Valid() && Ready(elements, start, limit, u) && LongEnough(elements, start, limit, u + 1)
    requires elements[start].key[u] != elements[limit - 1].key[u]
    requires Room(w, MatchBytes(Part(elements, start, limit, u)))
    modifies w, w.bytes
    ensures w.Valid() && (w.bytes == old(w.bytes) || fresh(w.bytes))
    ensures [node] + w.Content() == MatchBytes(Part(elements, start, limit, u)) + old(w.Content())
    decreases Size(Part(elements, start, limit, u)), 4
  {
    hide Writer.Valid, Writer.Content, Part, MatchBytes, BranchBytes, Size, CountUnits, Buildable;
    BranchRange(elements, start, limit, u);
    var length := CountElementUnits(elements, start, limit, u);
    var _ := WriteBranchSubNode(w, elements, start, limit, u, length);
    length := length - 1;
    if length < MIN_LINEAR_MATCH {
      node := length;
    } else {
      var _ := w.Write([length]);
      node := 0;
    }
  }

  /** All strings of the range have the same unit. */
  lemma {:induction false} LinearRange(elements: seq<Entry>, start: nat, limit: nat, u: nat)
    requires Ready(elements, start, limit, u) && LongEnough(elements, start, limit, u + 1)
    requires elements[start].key[u] == elements[limit - 1].key[u]
    ensures var a, b := elements[start].key[u..], elements[limit - 1].key[u..];
            var last := u + Common(a, b);
            && (a == b || Before(a, b)) && u < last && Ready(elements, start, limit, last)
            && MatchBytes(Part(elements, start, limit, u))
               == LinearBytes(elements[start].key[u..last]) + NodeBytes(Part(elements, start, limit, last))
            && Size(Part(elements, start, limit, last)) < Size(Part(elements, start, limit, u))
  {
    hide NodeBytes, LinearBytes, LongEnough, Size, Buildable, Before, Common;
    var es := Part(elements, start, limit, u);
    LinearUnits(elements, start, limit, u);
    var n := Common(es[0].key, es[|es| - 1].key);
    SizeDropped(es, n);
    SliceOf(elements[start].key, u, n);
  }

  lemma SliceOf(key: seq<Byte>, u: nat, n: nat)
    requires u + n <= |key|
    ensures key[u..][..n] == key[u..u + n]
  {
  }

  lemma {:induction false} LinearUnits(elements: seq<Entry>, start: nat, limit: nat, u: nat)
    requires Ready(elements, start, limit, u) && LongEnough(elements, start, limit, u + 1)
    requires elements[start].key[u] == elements[limit - 1].key[u]
    ensures var es := Part(elements, start, limit, u);
            var a, b := es[0].key, es[|es| - 1].key;
            && a == elements[start].key[u..] && b == elements[limit - 1].key[u..] && a != [] && 0 < Common(a, b)
            && (a == b || Before(a, b)) && LongEnough(elements, start, limit, u + Common(a, b))
            && Buildable(Part(elements, start, limit, u + Common(a, b)))
            && Dropped(es, Common(a, b)) == Part(elements, start, limit, u + Common(a, b))
  {
    hide Part, Before;
    var es := Part(elements, start, limit, u);
    PartAt(elements, start, limit, u, start);
    PartAt(elements, start, limit, u, limit - 1);
    var n := Common(es[0].key, es[|es| - 1].key);
    assert n > 0;
    var units := es[0].key[..n];
    AllStartWith(es, n);
    forall k | start <= k < limit ensures u + n <= |elements[k].key| {
      PartAt(elements, start, limit, u, k);
      assert units <= es[k - start].key;
    }
    DroppedBuildable(es, units);
    PartDropped(elements, start, limit, u, n);
  }

  /** There are several units. */
  lemma {:induction false} BranchRange(elements: seq<Entry>, start: nat, limit: nat, u: nat)
    requires Ready(elements, start, limit, u) && LongEnough(elements, start, limit, u + 1)
    requires elements[start].key[u] != elements[limit - 1].key[u]
    ensures var es := Part(elements, start, limit, u);
            && 2 <= CountUnits(es) <= 0x100
            && MatchBytes(es) == HeadBytes(CountUnits(es)) + BranchBytes(es)
  {
    hide BranchBytes, HeadBytes;
    var es := Part(elements, start, limit, u);
    PartAt(elements, start, limit, u, start);
    PartAt(elements, start, limit, u, limit - 1);
    assert Common(es[0].key, es[|es| - 1].key) == 0;
    ManyUnits(es);
  }

  /** Writes the nodes of all edges but the last; returns where they are. */
  method WriteSubNodes(w: Writer, elements: seq<Entry>, starts: seq<nat>, isFinal: seq<bool>, limit: nat, u: nat)
    returns (jumpTargets: seq<nat>)
    requires w.Valid() && List(elements, starts, isFinal, limit, u)
    requires Room(w, Subs(elements, starts, limit, u, 0))
    modifies w, w.bytes
    ensures w.Valid() && (w.bytes == old(w.bytes) || fresh(w.bytes))
    ensures w.Content() == Subs(elements, starts, limit, u, 0) + old(w.Content())
    ensures Targets(elements, starts, isFinal, limit, u, 0, jumpTargets, |old(w.Content())|)
    decreases Size(From(elements, starts, limit, u, 0)), 1
  {
    hide Writer.Valid, Writer.Content, Part, NodeBytes, Size, List, Ready, Subs, From;
    var k := |isFinal|;
    jumpTargets := seq(k, _ => 0);
    ListEnd(elements, starts, isFinal, limit, u);
    while k > 0
      invariant w.Valid() && (w.bytes == old(w.bytes) || fresh(w.bytes)) && k <= |isFinal|
      invariant w.Content() == Subs(elements, starts, limit, u, k) + old(w.Content())
      invariant Targets(elements, starts, isFinal, limit, u, k, jumpTargets, |old(w.Content())|)
    {
      k := k - 1;
      SubStep(elements, starts, isFinal, limit, u, k);
      if !isFinal[k] {
        var target := WriteNode(w, elements, starts[k], starts[k + 1], u + 1);
        jumpTargets := jumpTargets[k := target];
      }
    }
  }

  lemma {:induction false} SubStep(elements: seq<Entry>, starts: seq<nat>, isFinal: seq<bool>, limit: nat, u: nat,
                                   k: nat)
    requires List(elements, starts, isFinal, limit, u) && k < |isFinal|
    ensures k + 1 < |starts| && starts[k] < starts[k + 1] < limit <= |elements|
    ensures Ready(elements, starts[k], starts[k + 1], u + 1)
    ensures Size(Part(elements, starts[k], starts[k + 1], u + 1)) < Size(From(elements, starts, limit, u, 0))
    ensures Subs(elements, starts, limit, u, k)
         == NodeOf(elements, starts, isFinal, u, k) + Subs(elements, starts, limit, u, k + 1)
    ensures |Subs(elements, starts, limit, u, k)| <= |Subs(elements, starts, limit, u, 0)|
  {
    hide Part, NodeOf, SubBytes, PairBytes, Size, Edges, EncodeValue, Ready;
    ListEnd(elements, starts, isFinal, limit, u);
    ListShrinks(elements, starts, isFinal, limit, u, k);
    EdgeFacts(elements, starts, isFinal, limit, u, k, 0);
  }

  /** The places of nodes, as distances from the end, when there were `length` bytes before them. */
  ghost predicate Targets(elements: seq<Entry>, starts: seq<nat>, isFinal: seq<bool>, limit: nat, u: nat, from: nat,
                          jumpTargets: seq<nat>, length: nat)
  {
    && |jumpTargets| == |isFinal| < |starts| && limit <= |elements|
    && forall k :: from <= k < |isFinal| && !isFinal[k] ==>
         starts[k] <= limit && jumpTargets[k] == |Subs(elements, starts, limit, u, k)| + length
  }

  lemma {:induction false} ListEnd(elements: seq<Entry>, starts: seq<nat>, isFinal: seq<bool>, limit: nat, u: nat)
    requires List(elements, starts, isFinal, limit, u)
    ensures |starts| == |isFinal| + 1 && limit <= |elements| && forall k :: 0 <= k < |starts| ==> starts[k] < limit
    ensures Subs(elements, starts, limit, u, |isFinal|) == []
  {
  }

  const MAX_SPLIT_BRANCH_LEVELS := 14

  /** The number of times that a branch of `n` edges is split. */
  ghost function Levels(n: nat): nat {
    if n > MAX_BRANCH_LINEAR_SUB_NODE_LENGTH then 1 + Levels(n - n / 2) else 0
  }

  /** Branches on bytes are split at most six times, which the fixed arrays for 14 levels hold. */
  lemma LevelsFit(n: nat)
    requires n <= 0x100
    ensures Levels(n) <= 6 < MAX_SPLIT_BRANCH_LEVELS
  {
    assert Reach(0) == 5 && Reach(1) == 10 && Reach(2) == 20;
    assert Reach(3) == 40 && Reach(4) == 80;
    assert Reach(5) == 160 && Reach(6) == 320;
    LevelsAtMost(n, 6);
  }

  /** The most edges that `k` splits are enough for. */
  ghost function Reach(k: nat): nat { if k == 0 then 5 else 2 * Reach(k - 1) }

  lemma {:induction false} LevelsAtMost(n: nat, k: nat)
    requires n <= Reach(k)
    ensures Levels(n) <= k
  {
    if n > 5 { LevelsAtMost(n - n / 2, k - 1); }
  }

  /** The bytes after the split nodes, the last one first, have been written before `content`. */
  ghost function Splits(middleUnits: seq<Byte>, lessThan: seq<nat>, content: seq<Byte>): seq<Byte>
    requires |middleUnits| == |lessThan|
    decreases |lessThan|
  {
    var n := |lessThan| - 1;
    if n < 0 then content
    else
      var jump := if lessThan[n] <= |content| then |content| - lessThan[n] else 0;
      Splits(middleUnits[..n], lessThan[..n], [middleUnits[n]] + EncodeJump(jump) + content)
  }

  lemma {:induction false} SplitsGrow(middleUnits: seq<Byte>, lessThan: seq<nat>, content: seq<Byte>)
    requires |middleUnits| == |lessThan|
    ensures |content| <= |Splits(middleUnits, lessThan, content)|
    decreases |lessThan|
  {
    var n := |lessThan| - 1;
    if 0 <= n {
      var jump := if lessThan[n] <= |content| then |content| - lessThan[n] else 0;
      SplitsGrow(middleUnits[..n], lessThan[..n], [middleUnits[n]] + EncodeJump(jump) + content);
    }
  }

  lemma {:induction false} SplitStep(middleUnits: seq<Byte>, lessThan: seq<nat>, n: nat, content: seq<Byte>)
    requires 0 < n <= |middleUnits| == |lessThan| && lessThan[n - 1] <= |content|
    ensures Splits(middleUnits[..n], lessThan[..n], content)
         == Splits(middleUnits[..n - 1], lessThan[..n - 1],
                   [middleUnits[n - 1]] + (EncodeJump(|content| - lessThan[n - 1]) + content))
  {
    hide EncodeJump;
    var jump := EncodeJump(|content| - lessThan[n - 1]);
    assert [middleUnits[n - 1]] + jump + content == [middleUnits[n - 1]] + (jump + content);
    assert middleUnits[..n][..n - 1] == middleUnits[..n - 1] && lessThan[..n][..n - 1] == lessThan[..n - 1];
  }

  /** Writes the split nodes. */
  method WriteSplits(w: Writer, middleUnits: seq<Byte>, lessThan: seq<nat>, start: nat) returns (offset: nat)
    requires w.Valid() && start == |w.Content()| && |middleUnits| == |lessThan|
    requires forall k :: 0 <= k < |lessThan| ==> lessThan[k] <= |w.Content()|
    requires |Splits(middleUnits, lessThan, w.Content())| <= INT32_MAX
    modifies w, w.bytes
    ensures w.Valid() && (w.bytes == old(w.bytes) || fresh(w.bytes)) && offset == |w.Content()|
    ensures w.Content() == Splits(middleUnits, lessThan, old(w.Content()))
  {
    hide Writer.Valid, Writer.Content, EncodeDelta, EncodeJump, Splits;
    var n := |lessThan|;
    offset := start;
    assert middleUnits[..n] == middleUnits && lessThan[..n] == lessThan;
    while n > 0
      invariant w.Valid() && (w.bytes == old(w.bytes) || fresh(w.bytes)) && n <= |lessThan|
      invariant |old(w.Content())| <= |w.Content()| == offset
      invariant Splits(middleUnits[..n], lessThan[..n], w.Content()) == Splits(middleUnits, lessThan, old(w.Content()))
    {
      SplitsGrow(middleUnits[..n], lessThan[..n], w.Content());
      SplitStep(middleUnits, lessThan, n, w.Content());
      n := n - 1;
      JumpIsDelta(|w.Content()| - lessThan[n]);
      var _ := w.WriteDeltaTo(lessThan[n]);
      offset := w.Write([middleUnits[n]]);
    }
    NoSplits(middleUnits[..0], lessThan[..0], w.Content());
  }

  lemma NoSplits(middleUnits: seq<Byte>, lessThan: seq<nat>, content: seq<Byte>)
    requires |middleUnits| == |lessThan| == 0
    ensures Splits(middleUnits, lessThan, content) == content
  {
  }

  /** Writes the pairs of a unit and a value or jump before the last edge. */
  method WritePairs(w: Writer, elements: seq<Entry>, starts: seq<nat>, isFinal: seq<bool>, limit: nat, u: nat,
                    jumpTargets: seq<nat>, start: nat, ghost rest: seq<Byte>)
    returns (offset: nat)
    requires w.Valid() && List(elements, starts, isFinal, limit, u)
    requires Targets(elements, starts, isFinal, limit, u, 0, jumpTargets, |rest|)
    requires w.Content() == Listed(elements, starts, isFinal, limit, u, |isFinal|) + rest && start == |w.Content()|
    requires |Listed(elements, starts, isFinal, limit, u, 0)| + |rest| <= INT32_MAX
    modifies w, w.bytes
    ensures w.Valid() && (w.bytes == old(w.bytes) || fresh(w.bytes)) && offset == |w.Content()|
    ensures w.Content() == Listed(elements, starts, isFinal, limit, u, 0) + rest
  {
    hide Writer.Valid, Writer.Content, List, EncodeValue, Listed, Targets;
    var k := |isFinal|;
    offset := start;
    while k > 0
      invariant w.Valid() && (w.bytes == old(w.bytes) || fresh(w.bytes)) && 0 <= k <= |isFinal|
      invariant w.Content() == Listed(elements, starts, isFinal, limit, u, k) + rest && offset == |w.Content()|
    {
      k := k - 1;
      ListedStep(elements, starts, isFinal, limit, u, k, jumpTargets, rest);
      var value := if isFinal[k] then elements[starts[k]].value else offset - jumpTargets[k];
      offset := w.WriteValueAndFinal(value, isFinal[k]);
      offset := w.Write([elements[starts[k]].key[u]]);
    }
  }

  /** The edges from `k` on, as they are in the list, and all nodes. */
  ghost function Listed(elements: seq<Entry>, starts: seq<nat>, isFinal: seq<bool>, limit: nat, u: nat, k: nat)
    : seq<Byte>
    requires List(elements, starts, isFinal, limit, u) && k <= |isFinal|
  {
    ListEnd(elements, starts, isFinal, limit, u);
    ListShrinks(elements, starts, isFinal, limit, u, k);
    var all := Subs(elements, starts, limit, u, 0);
    PairBytes(From(elements, starts, limit, u, k), |all| - |Subs(elements, starts, limit, u, k)|) + all
  }

  lemma {:induction false} ListedParts(elements: seq<Entry>, starts: seq<nat>, isFinal: seq<bool>, limit: nat, u: nat,
                                       k: nat)
    requires List(elements, starts, isFinal, limit, u) && k < |isFinal|
    ensures starts[k] < limit && Ready(elements, starts[k], limit, u) && u < |elements[starts[k]].key|
    ensures var after := Listed(elements, starts, isFinal, limit, u, k + 1);
            var jump := |after| - |Subs(elements, starts, limit, u, k)|;
            && 0 <= jump
            && Listed(elements, starts, isFinal, limit, u, k)
               == [elements[starts[k]].key[u]]
                  + EncodeValue(EdgeInt(elements, starts[k], isFinal[k], jump), isFinal[k]) + after
  {
    hide Size, PairBytes, SubBytes, From, EncodeValue, Edges, EdgeInt, NodeOf, Leaves, Ready;
    ListEnd(elements, starts, isFinal, limit, u);
    ListShrinks(elements, starts, isFinal, limit, u, k);
    var n := |Subs(elements, starts, limit, u, 0)| - |Subs(elements, starts, limit, u, k)|;
    EdgeFacts(elements, starts, isFinal, limit, u, k, n);
  }

  lemma {:induction false} ListedShrinks(elements: seq<Entry>, starts: seq<nat>, isFinal: seq<bool>, limit: nat,
                                         u: nat, k: nat)
    requires List(elements, starts, isFinal, limit, u) && k <= |isFinal|
    ensures |Listed(elements, starts, isFinal, limit, u, k)| <= |Listed(elements, starts, isFinal, limit, u, 0)|
  {
    hide Size, PairBytes, SubBytes, From, Edges, Leaves, Ready;
    ListEnd(elements, starts, isFinal, limit, u);
    ListShrinks(elements, starts, isFinal, limit, u, k);
  }

  /** `whole` is `after` with edge `k` written in front of it. */
  ghost predicate EdgeWritten(elements: seq<Entry>, starts: seq<nat>, isFinal: seq<bool>, u: nat, k: nat,
                              jumpTargets: seq<nat>, after: seq<Byte>, whole: seq<Byte>)
  {
    && k < |starts| && k < |isFinal| && k < |jumpTargets| && starts[k] < |elements|
    && u < |elements[starts[k]].key|
    && var value := if isFinal[k] then elements[starts[k]].value else |after| - jumpTargets[k];
       InInt32(value) && whole == [elements[starts[k]].key[u]] + (EncodeValue(value, isFinal[k]) + after)
  }

  lemma {:induction false} ListedStep(elements: seq<Entry>, starts: seq<nat>, isFinal: seq<bool>, limit: nat, u: nat,
                                      k: nat, jumpTargets: seq<nat>, rest: seq<Byte>)
    requires List(elements, starts, isFinal, limit, u) && k < |isFinal|
    requires Targets(elements, starts, isFinal, limit, u, 0, jumpTargets, |rest|)
    requires |Listed(elements, starts, isFinal, limit, u, 0)| + |rest| <= INT32_MAX
    ensures EdgeWritten(elements, starts, isFinal, u, k, jumpTargets,
                        Listed(elements, starts, isFinal, limit, u, k + 1) + rest,
                        Listed(elements, starts, isFinal, limit, u, k) + rest)
  {
    hide *;
    ListEnd(elements, starts, isFinal, limit, u);
    ListedParts(elements, starts, isFinal, limit, u, k);
    ListedShrinks(elements, starts, isFinal, limit, u, k + 1);
    ReadyValue(elements, starts[k], limit, u);
    TargetOf(elements, starts, isFinal, limit, u, jumpTargets, |rest|, k);
    PairWritten(elements, starts, isFinal, u, k, jumpTargets, Listed(elements, starts, isFinal, limit, u, k + 1),
                Listed(elements, starts, isFinal, limit, u, k), rest, |Subs(elements, starts, limit, u, k)|);
  }

  lemma {:induction false} TargetOf(elements: seq<Entry>, starts: seq<nat>, isFinal: seq<bool>, limit: nat, u: nat,
                                    jumpTargets: seq<nat>, length: nat, k: nat)
    requires Targets(elements, starts, isFinal, limit, u, 0, jumpTargets, length)
    requires k < |isFinal| && k < |starts| && starts[k] <= limit <= |elements|
    ensures |jumpTargets| == |isFinal|
    ensures !isFinal[k] ==> jumpTargets[k] == |Subs(elements, starts, limit, u, k)| + length
  {
  }

  lemma {:induction false} PairWritten(elements: seq<Entry>, starts: seq<nat>, isFinal: seq<bool>, u: nat, k: nat,
                                       jumpTargets: seq<nat>, after: seq<Byte>, whole: seq<Byte>, rest: seq<Byte>,
                                       sub: nat)
    requires k < |starts| && k < |isFinal| && k < |jumpTargets| && starts[k] < |elements|
    requires u < |elements[starts[k]].key| && InInt32(elements[starts[k]].value)
    requires sub <= |after| && |after| + |rest| <= INT32_MAX
    requires !isFinal[k] ==> jumpTargets[k] == sub + |rest|
    requires whole == [elements[starts[k]].key[u]]
                      + EncodeValue(EdgeInt(elements, starts[k], isFinal[k], |after| - sub), isFinal[k]) + after
    ensures EdgeWritten(elements, starts, isFinal, u, k, jumpTargets, after + rest, whole + rest)
  {
    hide EncodeValue, Int32Of;
    var value := if isFinal[k] then elements[starts[k]].value else |after| - sub;
    Int32OfSelf(value);
  }

  lemma {:induction false} ReadyValue(elements: seq<Entry>, start: nat, limit: nat, u: nat)
    requires Ready(elements, start, limit, u)
    ensures InInt32(elements[start].value)
  {
    PartAt(elements, start, limit, u, start);
    assert Values32(Part(elements, start, limit, u));
  }

  /** The last edge, which needs no jump. */
  lemma {:induction false} LastEdge(elements: seq<Entry>, starts: seq<nat>, isFinal: seq<bool>, limit: nat, u: nat)
    requires List(elements, starts, isFinal, limit, u) && |starts| == |isFinal| + 1
    ensures var start := starts[|isFinal|];
            && Ready(elements, start, limit, u + 1) && u < |elements[start].key|
            && Size(Part(elements, start, limit, u + 1)) < Size(From(elements, starts, limit, u, 0))
            && Listed(elements, starts, isFinal, limit, u, |isFinal|)
               == [elements[start].key[u]] + NodeBytes(Part(elements, start, limit, u + 1))
                  + Subs(elements, starts, limit, u, 0)
  {
    var k := |isFinal|;
    ListEnd(elements, starts, isFinal, limit, u);
    ListShrinks(elements, starts, isFinal, limit, u, k);
    LastRun(elements, starts[k], limit, u, |Subs(elements, starts, limit, u, 0)|);
    hide Part, PairBytes, SubBytes, NodeBytes, Size, Ready, Leaves;
  }

  lemma {:induction false} LastRun(elements: seq<Entry>, start: nat, limit: nat, u: nat, skip: nat)
    requires Ready(elements, start, limit, u) && LongEnough(elements, start, limit, u + 1)
    requires FirstRun(Part(elements, start, limit, u)) == limit - start
    ensures Ready(elements, start, limit, u + 1)
    ensures Size(Part(elements, start, limit, u + 1)) < Size(Part(elements, start, limit, u))
    ensures PairBytes(Part(elements, start, limit, u), skip)
         == [elements[start].key[u]] + NodeBytes(Part(elements, start, limit, u + 1))
  {
    hide NodeBytes, FirstRun, Part, Ascending, Size;
    var es := Part(elements, start, limit, u);
    PartAt(elements, start, limit, u, start);
    var b := es[0].key[0];
    forall k | 0 <= k < |es| ensures [b] <= es[k].key {
      PartAt(elements, start, limit, u, start + k);
      assert Unit(es[k]) == Unit(es[0]);
    }
    DroppedBuildable(es, [b]);
    PartDropped(elements, start, limit, u, 1);
    SizeDropped(es, 1);
  }

  /** Writes a list of at most five edges and the nodes that they lead to. */
  method WriteList(w: Writer, elements: seq<Entry>, start: nat, limit: nat, u: nat, length: nat)
    returns (offset: nat)
    requires w.Valid() && Ready(elements, start, limit, u) && LongEnough(elements, start, limit, u + 1)
    requires 2 <= length == CountUnits(Part(elements, start, limit, u)) <= MAX_BRANCH_LINEAR_SUB_NODE_LENGTH
    requires Room(w, BranchBytes(Part(elements, start, limit, u)))
    modifies w, w.bytes
    ensures w.Valid() && (w.bytes == old(w.bytes) || fresh(w.bytes)) && offset == |w.Content()|
    ensures w.Content() == BranchBytes(Part(elements, start, limit, u)) + old(w.Content())
    decreases Size(Part(elements, start, limit, u)), 2
  {
    hide Writer.Valid, Writer.Content, Part, NodeBytes, BranchBytes, SubBytes, PairBytes, Size, CountUnits, LongEnough;
    hide Edges, Leaves, Targets, Listed, EncodeValue, Buildable;
    var starts, isFinal := FindEdges(elements, start, limit, u, length);
    ListIs(elements, starts, isFinal, limit, u, length);
    var jumpTargets := WriteSubNodes(w, elements, starts, isFinal, limit, u);
    LastEdge(elements, starts, isFinal, limit, u);
    ListedShrinks(elements, starts, isFinal, limit, u, |isFinal|);
    var last := starts[length - 1];
    var _ := WriteNode(w, elements, last, limit, u + 1);
    offset := w.Write([elements[last].key[u]]);
    offset := WritePairs(w, elements, starts, isFinal, limit, u, jumpTargets, offset, old(w.Content()));
  }

  lemma {:induction false} ListIs(elements: seq<Entry>, starts: seq<nat>, isFinal: seq<bool>, limit: nat, u: nat,
                                  length: nat)
    requires List(elements, starts, isFinal, limit, u) && 2 <= length == |starts| <= 5
    requires length == CountUnits(From(elements, starts, limit, u, 0))
    ensures |isFinal| == length - 1
    ensures Listed(elements, starts, isFinal, limit, u, 0) == BranchBytes(From(elements, starts, limit, u, 0))
    ensures |Subs(elements, starts, limit, u, 0)| <= |Listed(elements, starts, isFinal, limit, u, 0)|
  {
    hide SubBytes, PairBytes, CountUnits, Part;
  }

  /** Splitting a branch in the middle. */
  lemma {:induction false} SplitRange(elements: seq<Entry>, start: nat, limit: nat, u: nat, i: nat)
    requires Ready(elements, start, limit, u) && LongEnough(elements, start, limit, u + 1)
    requires var es := Part(elements, start, limit, u);
             5 < CountUnits(es) && i == start + SkipUnits(es, CountUnits(es) / 2)
    ensures start < i < limit && Ready(elements, start, i, u) && Ready(elements, i, limit, u)
    ensures var es, n := Part(elements, start, limit, u), CountUnits(Part(elements, start, limit, u));
            var ls, rs := Part(elements, start, i, u), Part(elements, i, limit, u);
            var rest := BranchBytes(rs);
            && CountUnits(ls) == n / 2 && CountUnits(rs) == n - n / 2 && Size(ls) < Size(es) && Size(rs) < Size(es)
            && BranchBytes(es) == [elements[i].key[u]] + EncodeJump(|rest|) + rest + BranchBytes(ls)
  {
    hide Part, SkipUnits, CountUnits, EncodeJump, Buildable, BranchBytes, Size;
    HalvesShape(Part(elements, start, limit, u));
    PartParts(elements, start, limit, u, i);
    PartAt(elements, start, limit, u, i);
  }

  lemma {:induction false} HalvesShape(es: seq<Entry>)
    requires Buildable(es) && 5 < CountUnits(es)
    ensures var n, i := CountUnits(es), SkipUnits(es, CountUnits(es) / 2);
            var ls, rs := es[..i], es[i..];
            var rest := BranchBytes(rs);
            && CountUnits(ls) == n / 2 && CountUnits(rs) == n - n / 2 && 0 < i < |es|
            && Size(ls) < Size(es) && Size(rs) < Size(es) && Buildable(ls) && Buildable(rs)
            && BranchBytes(es) == [Unit(es[i])] + EncodeJump(|rest|) + rest + BranchBytes(ls)
  {
    hide SkipUnits, CountUnits, EncodeJump, Ascending;
    var i := SkipUnits(es, CountUnits(es) / 2);
    ElementsParts(es, i);
    SizeParts(es, i);
  }

  /** A branch is split by remembering its middle unit and where its lower half has been written. */
  lemma {:induction false} SplitsPush(middleUnits: seq<Byte>, lessThan: seq<nat>, unit: Byte, rest: seq<Byte>,
                                      lower: seq<Byte>, content: seq<Byte>)
    requires |middleUnits| == |lessThan|
    ensures Splits(middleUnits, lessThan, [unit] + EncodeJump(|rest|) + rest + lower + content)
         == Splits(middleUnits + [unit], lessThan + [|lower + content|], rest + (lower + content))
  {
    hide EncodeJump;
    var n := |lessThan|;
    var whole := rest + (lower + content);
    assert (middleUnits + [unit])[..n] == middleUnits && (lessThan + [|lower + content|])[..n] == lessThan;
    assert [unit] + EncodeJump(|rest|) + rest + lower + content == [unit] + EncodeJump(|rest|) + whole;
  }

  /** Writes a branch with the given number of edges, halving it until it is a list. */
  method WriteBranchSubNode(w: Writer, elements: seq<Entry>, start: nat, limit: nat, u: nat, length: nat)
    returns (offset: nat)
    requires w.Valid() && Ready(elements, start, limit, u) && LongEnough(elements, start, limit, u + 1)
    requires 2 <= length == CountUnits(Part(elements, start, limit, u)) <= 0x100
    requires Room(w, BranchBytes(Part(elements, start, limit, u)))
    modifies w, w.bytes
    ensures w.Valid() && (w.bytes == old(w.bytes) || fresh(w.bytes)) && offset == |w.Content()|
    ensures w.Content() == BranchBytes(Part(elements, start, limit, u)) + old(w.Content())
    decreases Size(Part(elements, start, limit, u)), 3
  {
    hide Writer.Valid, Writer.Content, Part, BranchBytes, Size, CountUnits, SkipUnits, Buildable, Splits, EncodeJump;
    var from, n := start, length;
    var middleUnits: seq<Byte>, lessThan: seq<nat> := [], [];
    NoSplits(middleUnits, lessThan, BranchBytes(Part(elements, start, limit, u)) + w.Content());
    LevelsFit(length);
    while n > MAX_BRANCH_LINEAR_SUB_NODE_LENGTH
      invariant w.Valid() && (w.bytes == old(w.bytes) || fresh(w.bytes))
      invariant start <= from && Ready(elements, from, limit, u)
      invariant 2 <= n == CountUnits(Part(elements, from, limit, u)) <= 0x100
      invariant Size(Part(elements, from, limit, u)) <= Size(Part(elements, start, limit, u))
      invariant |middleUnits| == |lessThan| && |lessThan| + Levels(n) == Levels(length)
      invariant forall k :: 0 <= k < |lessThan| ==> lessThan[k] <= |w.Content()|
      invariant Splits(middleUnits, lessThan, BranchBytes(Part(elements, from, limit, u)) + w.Content())
             == BranchBytes(Part(elements, start, limit, u)) + old(w.Content())
    {
      ghost var content := w.Content();
      var i := SkipElementsBySomeUnits(elements, from, limit, u, n / 2);
      SplitRange(elements, from, limit, u, i);
      ghost var rest, lower := BranchBytes(Part(elements, i, limit, u)), BranchBytes(Part(elements, from, i, u));
      SplitsGrow(middleUnits, lessThan, BranchBytes(Part(elements, from, limit, u)) + content);
      SplitsPush(middleUnits, lessThan, elements[i].key[u], rest, lower, content);
      assert |lessThan| < MAX_SPLIT_BRANCH_LEVELS;
      var target := WriteBranchSubNode(w, elements, from, i, u, n / 2);
      middleUnits, lessThan := middleUnits + [elements[i].key[u]], lessThan + [target];
      from, n := i, n - n / 2;
    }
    SplitsGrow(middleUnits, lessThan, BranchBytes(Part(elements, from, limit, u)) + w.Content());
    offset := WriteList(w, elements, from, limit, u, n);
    offset := WriteSplits(w, middleUnits, lessThan, offset);
  }
}
