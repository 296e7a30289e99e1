/** A built trie is well-formed and sorted and holds exactly what it was built from. */
module TrieBuilt {
  import opened Basics
  import opened TrieFormat
  import opened TrieOrder
  import opened TrieWriter
  import opened TrieBuild

  // ----- bytes in place

  /** The bytes `b` are in `s` at `p`. */
  ghost predicate Holds(s: seq<Byte>, p: int, b: seq<Byte>) {
    0 <= p && p + |b| <= |s| && s[p..p + |b|] == b
  }

  lemma HoldsParts(s: seq<Byte>, p: int, a: seq<Byte>, b: seq<Byte>)
    requires Holds(s, p, a + b)
    ensures Holds(s, p, a) && Holds(s, p + |a|, b)
  {
    assert s[p..p + |a|] == (a + b)[..|a|] == a;
    assert s[p + |a|..p + |a| + |b|] == (a + b)[|a|..] == b;
  }

  lemma HoldsFirst(s: seq<Byte>, p: int, x: Byte, b: seq<Byte>)
    requires Holds(s, p, [x] + b)
    ensures 0 <= p < |s| && s[p] == x && Holds(s, p + 1, b)
  {
    HoldsParts(s, p, [x], b);
    assert s[p..p + 1][0] == x;
  }

  lemma ValueHeld(s: seq<Byte>, p: int, i: Int32, isFinal: bool)
    requires Holds(s, p, EncodeValue(i, isFinal))
    ensures ValueAt(s, p) && ValueOf(s, p) == i && IsFinal(s[p]) == isFinal
    ensures AfterValue(s, p) == p + |EncodeValue(i, isFinal)|
  {
    hide EncodeValue, ValueAt, ValueOf, AfterValue;
    var e := EncodeValue(i, isFinal);
    assert s == s[..p] + e + s[p + |e|..];
    ValueRoundTrip(s[..p], i, isFinal, s[p + |e|..]);
  }

  lemma JumpHeld(s: seq<Byte>, p: int, n: nat)
    requires n <= INT32_MAX && Holds(s, p, EncodeJump(n))
    ensures 0 <= p < |s| && SkipDelta(s, p) == p + |EncodeJump(n)| <= |s| && JumpByDelta(s, p) == SkipDelta(s, p) + n
  {
    Int32OfSelf(n);
    JumpIsDelta(n);
    hide EncodeDelta, SkipDelta, JumpByDelta, Int32Of;
    var e := EncodeDelta(n);
    assert s == s[..p] + e + s[p + |e|..];
    DeltaRoundTrip(s[..p], n, s[p + |e|..]);
  }

  lemma JumpIsDelta(n: nat)
    requires n <= INT32_MAX
    ensures EncodeJump(n) == EncodeDelta(n) && EncodeJump(n) != []
  {
    Int32OfSelf(n);
  }

  // ----- sorted elements

  lemma {:induction false} UnitsOrdered(a: seq<Byte>, b: seq<Byte>)
    requires Before(a, b) && a != []
    ensures a[0] <= b[0]
  {
  }

  /** What lies between two strings with a common beginning has it, too. */
  lemma {:induction false} Between(a: seq<Byte>, b: seq<Byte>, c: seq<Byte>, n: nat)
    requires (a == b || Before(a, b)) && (b == c || Before(b, c)) && n <= |a| && n <= |c| && a[..n] == c[..n]
    ensures n <= |b| && b[..n] == a[..n]
    decreases n
  {
    if n > 0 {
      assert a[0] == a[..n][0] == c[..n][0] == c[0];
      assert a[1..][..n - 1] == a[..n][1..] && c[1..][..n - 1] == c[..n][1..];
      assert b != [] && b[0] == a[0];
      Between(a[1..], b[1..], c[1..], n - 1);
      assert b[..n] == [b[0]] + b[1..][..n - 1] && a[..n] == [a[0]] + a[1..][..n - 1];
    }
  }

  lemma {:induction false} BeforeDrop(a: seq<Byte>, b: seq<Byte>, n: nat)
    requires Before(a, b) && n <= |a| && n <= |b| && a[..n] == b[..n]
    ensures Before(a[n..], b[n..])
    decreases n
  {
    if n == 0 {
      assert a[0..] == a && b[0..] == b;
    } else {
      assert a[0] == a[..n][0] == b[..n][0] == b[0];
      assert a[1..][..n - 1] == a[..n][1..] && b[1..][..n - 1] == b[..n][1..];
      BeforeDrop(a[1..], b[1..], n - 1);
      assert a[1..][n - 1..] == a[n..] && b[1..][n - 1..] == b[n..];
    }
  }

  /** All strings start with the units `u`. */
  ghost predicate StartWith(es: seq<Entry>, u: seq<Byte>) {
    forall k :: 0 <= k < |es| ==> u <= es[k].key
  }

  lemma DroppedPrefixed(es: seq<Entry>, u: seq<Byte>)
    requires StartWith(es, u)
    ensures Prefixed(u, Dropped(es, |u|)) == es
  {
    var ds := Dropped(es, |u|);
    forall k | 0 <= k < |es| ensures Prefixed(u, ds)[k] == es[k] {
      assert es[k].key == u + es[k].key[|u|..];
    }
  }

  lemma DroppedAscending(es: seq<Entry>, u: seq<Byte>)
    requires StartWith(es, u) && Ascending(es)
    ensures Ascending(Dropped(es, |u|))
  {
    hide Before;
    var ds := Dropped(es, |u|);
    forall i, j | 0 <= i < j < |ds| ensures Before(ds[i].key, ds[j].key) {
      BeforeDrop(es[i].key, es[j].key, |u|);
    }
  }

  lemma AllStartWith(es: seq<Entry>, n: nat)
    requires es != [] && Ascending(es) && n <= |es[0].key| && n <= |es[|es| - 1].key|
    requires es[0].key[..n] == es[|es| - 1].key[..n]
    ensures StartWith(es, es[0].key[..n])
  {
    hide Before;
    forall k | 0 <= k < |es| ensures es[0].key[..n] <= es[k].key {
      Between(es[0].key, es[k].key, es[|es| - 1].key, n);
    }
  }

  lemma PartAscending(es: seq<Entry>, i: nat)
    requires Ascending(es) && i <= |es|
    ensures Ascending(es[..i]) && Ascending(es[i..])
  {
    hide Before;
  }

  /** The elements of the first unit, and the others with greater ones. */
  lemma RunApart(es: seq<Entry>, lo: int, hi: int)
    requires es != [] && Ascending(es) && FirstBytes(es, lo, hi)
    ensures var r, b := FirstRun(es), es[0].key[0];
            StartWith(es[..r], [b]) && FirstBytes(es[r..], b as int + 1, hi) && lo <= b < hi
  {
    var r, b := FirstRun(es), es[0].key[0];
    forall k | 0 <= k < r ensures [b] <= es[..r][k].key { assert Unit(es[k]) == Unit(es[0]); }
    forall k | r <= k < |es| ensures b < es[k].key[0] {
      UnitsOrdered(es[0].key, es[r].key);
      if r < k { UnitsOrdered(es[r].key, es[k].key); }
    }
  }

  lemma {:induction false} FewUnits(es: seq<Entry>, lo: int, hi: int)
    requires Ascending(es) && FirstBytes(es, lo, hi) && lo <= hi
    ensures CountUnits(es) <= hi - lo
    decreases |es|
  {
    hide Before;
    if es != [] {
      var r := FirstRun(es);
      RunApart(es, lo, hi);
      PartAscending(es, r);
      FewUnits(es[r..], es[0].key[0] as int + 1, hi);
    }
  }

  lemma {:induction false} SkipRest(es: seq<Entry>, n: nat)
    requires 0 < n < CountUnits(es)
    ensures FirstRun(es) < |es| && n - 1 < CountUnits(es[FirstRun(es)..]) == CountUnits(es) - 1
    ensures SkipUnits(es, n) == FirstRun(es) + SkipUnits(es[FirstRun(es)..], n - 1)
  {
    CountStep(es);
  }

  lemma {:induction false} UnitChanges(es: seq<Entry>, n: nat)
    requires 0 < n < CountUnits(es)
    ensures var i := SkipUnits(es, n); Unit(es[i - 1]) != Unit(es[i])
    decreases n
  {
    hide CountUnits, SkipUnits, FirstRun, Unit;
    SkipRest(es, n);
    if n > 1 {
      UnitChanges(es[FirstRun(es)..], n - 1);
    }
  }

  /** Splitting a branch splits the range of its units. */
  lemma {:induction false} HalvesApart(es: seq<Entry>, i: nat, lo: int, hi: int)
    requires Ascending(es) && FirstBytes(es, lo, hi) && 0 < i < |es| && Unit(es[i - 1]) != Unit(es[i])
    ensures FirstBytes(es[..i], lo, Unit(es[i])) && FirstBytes(es[i..], Unit(es[i]), hi) && lo <= Unit(es[i]) < hi
  {
    hide Before;
    UnitsOrdered(es[i - 1].key, es[i].key);
    forall k | 0 <= k < i ensures es[k].key[0] < Unit(es[i]) {
      if k < i - 1 { UnitsOrdered(es[k].key, es[i - 1].key); }
    }
    forall k | i <= k < |es| ensures Unit(es[i]) <= es[k].key[0] {
      if i < k { UnitsOrdered(es[i].key, es[k].key); }
    }
  }

  // ----- what the bytes denote

  /** Elements for a trie: sorted, none of them twice, with 32-bit values. */
  ghost predicate Buildable(es: seq<Entry>) {
    es != [] && Ascending(es) && Values32(es)
  }

  predicate Values32(es: seq<Entry>) {
    forall k :: 0 <= k < |es| ==> InInt32(es[k].value)
  }

  /** The node at `p` is well-formed and sorted and holds exactly `es`. */
  ghost predicate Denotes(s: seq<Byte>, p: int, es: seq<Entry>) {
    NodeOk(s, p) && NodeSorted(s, p) && Entries(s, p) == es
  }

  ghost predicate BranchDenotes(s: seq<Byte>, p: int, length: nat, lo: int, hi: int, es: seq<Entry>) {
    BranchOk(s, p, length) && BranchSorted(s, p, length, lo, hi) && BranchEntries(s, p, length) == es
  }

  lemma FinalBuilt(s: seq<Byte>, p: int, value: Int32)
    requires Holds(s, p, EncodeValue(value, true))
    ensures Denotes(s, p, [Entry([], value)])
  {
    hide EncodeValue;
    ValueHeld(s, p, value, true);
  }

  lemma ValueBuilt(s: seq<Byte>, p: int, value: Int32, es: seq<Entry>)
    requires Holds(s, p, EncodeValue(value, false))
    requires var q := p + |EncodeValue(value, false)|; Denotes(s, q, es) && s[q] < 0x20
    ensures Denotes(s, p, [Entry([], value)] + es)
  {
    hide EncodeValue;
    ValueHeld(s, p, value, false);
  }

  /** A linear-match node of at most 16 units has the number of units less one, plus 0x10, as its lead byte. */
  lemma ShortLinearBuilt(s: seq<Byte>, p: int, units: seq<Byte>, es: seq<Entry>)
    requires 1 <= |units| <= 16 && Holds(s, p, [0x10 + |units| - 1] + units) && Denotes(s, p + 1 + |units|, es)
    ensures Denotes(s, p, Prefixed(units, es)) && s[p] < 0x20
  {
    HoldsFirst(s, p, 0x10 + |units| - 1, units);
  }

  lemma {:induction false} LinearBuilt(s: seq<Byte>, p: int, units: seq<Byte>, es: seq<Entry>)
    requires units != [] && Holds(s, p, LinearBytes(units)) && Denotes(s, p + |LinearBytes(units)|, es)
    ensures Denotes(s, p, Prefixed(units, es)) && s[p] < 0x20
    decreases |units|
  {
    hide Denotes;
    var n := |units|;
    if n <= 16 {
      ShortLinearBuilt(s, p, units, es);
    } else {
      var init, last := units[..n - 16], units[n - 16..];
      var q := p + |LinearBytes(init)|;
      assert LinearBytes(units) == LinearBytes(init) + ([0x1f] + last);
      HoldsParts(s, p, LinearBytes(init), [0x1f] + last);
      ShortLinearBuilt(s, q, last, es);
      LinearBuilt(s, p, init, Prefixed(last, es));
      PrefixedTwice(init, last, es);
      assert init + last == units;
    }
  }

  /** The head of a branch gives the number of its edges, less one. */
  lemma HeadBuilt(s: seq<Byte>, p: int, length: nat, es: seq<Entry>)
    requires 2 <= length <= 0x100 && Holds(s, p, HeadBytes(length))
    requires BranchDenotes(s, p + |HeadBytes(length)|, length, 0, 0x100, es)
    ensures Denotes(s, p, es) && s[p] < 0x20
  {
    if length <= 16 {
      assert s[p..p + 1][0] == length - 1;
    } else {
      assert s[p..p + 2][0] == 0 && s[p..p + 2][1] == length - 1;
    }
  }

  lemma SplitBuilt(s: seq<Byte>, p: int, length: nat, lo: int, hi: int, unit: Byte, jump: nat, ls: seq<Entry>,
                   rs: seq<Entry>)
    requires 5 < length && 0 <= p && jump <= INT32_MAX && lo <= unit <= hi
    requires Holds(s, p, [unit] + EncodeJump(jump))
    requires var q := p + 1 + |EncodeJump(jump)|;
             && BranchDenotes(s, q + jump, length / 2, lo, unit, ls)
             && BranchDenotes(s, q, length - length / 2, unit, hi, rs)
    ensures BranchDenotes(s, p, length, lo, hi, ls + rs)
  {
    HoldsFirst(s, p, unit, EncodeJump(jump));
    JumpHeld(s, p + 1, jump);
    hide SkipDelta, JumpByDelta, EncodeJump;
  }

  lemma LastEdgeBuilt(s: seq<Byte>, p: int, lo: int, hi: int, unit: Byte, es: seq<Entry>)
    requires 0 <= p < |s| && s[p] == unit && lo <= unit < hi && Denotes(s, p + 1, es)
    ensures BranchDenotes(s, p, 1, lo, hi, Prefixed([unit], es))
  {
  }

  /** One more edge in front of others. */
  lemma EdgeJoined(s: seq<Byte>, p: int, length: nat, lo: int, hi: int, rs: seq<Entry>)
    requires 2 <= length <= 5 && 0 <= p < |s| && lo <= s[p] < hi && ValueAt(s, p + 1)
    requires IsFinal(s[p + 1]) ||
             (ValueOf(s, p + 1) >= 0 && NodeOk(s, EdgeTarget(s, p)) && NodeSorted(s, EdgeTarget(s, p)))
    requires BranchDenotes(s, AfterValue(s, p + 1), length - 1, s[p] as int + 1, hi, rs)
    ensures BranchDenotes(s, p, length, lo, hi, EdgeEntries(s, p) + rs)
  {
    hide NodeOk, NodeSorted, Entries, ValueAt, ValueOf, AfterValue, EdgeTarget, EdgeEntries;
    assert BranchOk(s, p, length);
    EdgeParts(s, p, length);
    assert BranchSorted(s, p, length, lo, hi);
  }

  /** An edge to a final value. */
  lemma FinalEdgeBuilt(s: seq<Byte>, p: int, length: nat, lo: int, hi: int, unit: Byte, value: Int32, rs: seq<Entry>)
    requires 2 <= length <= 5 && 0 <= p && lo <= unit < hi && Holds(s, p, [unit] + EncodeValue(value, true))
    requires BranchDenotes(s, p + 1 + |EncodeValue(value, true)|, length - 1, unit as int + 1, hi, rs)
    ensures BranchDenotes(s, p, length, lo, hi, [Entry([unit], value)] + rs)
  {
    hide EncodeValue, NodeOk, NodeSorted, Entries, BranchDenotes, ValueOf, AfterValue;
    HoldsFirst(s, p, unit, EncodeValue(value, true));
    ValueHeld(s, p + 1, value, true);
    EdgeJoined(s, p, length, lo, hi, rs);
  }

  /** An edge that leads over `jump` bytes to a node. */
  lemma JumpEdgeBuilt(s: seq<Byte>, p: int, length: nat, lo: int, hi: int, unit: Byte, jump: nat, es: seq<Entry>,
                      rs: seq<Entry>)
    requires 2 <= length <= 5 && 0 <= p && lo <= unit < hi && jump <= INT32_MAX
    requires Holds(s, p, [unit] + EncodeValue(jump, false))
    requires var q := p + 1 + |EncodeValue(jump, false)|;
             BranchDenotes(s, q, length - 1, unit as int + 1, hi, rs) && Denotes(s, q + jump, es)
    ensures BranchDenotes(s, p, length, lo, hi, Prefixed([unit], es) + rs)
  {
    hide EncodeValue, NodeOk, NodeSorted, Entries, BranchDenotes, ValueOf, AfterValue;
    HoldsFirst(s, p, unit, EncodeValue(jump, false));
    ValueHeld(s, p + 1, jump, false);
    EdgeJoined(s, p, length, lo, hi, rs);
  }

  // ----- the whole trie

  lemma {:induction false} ElementsParts(es: seq<Entry>, i: nat)
    requires Ascending(es) && Values32(es) && i <= |es|
    ensures Ascending(es[..i]) && Values32(es[..i]) && Ascending(es[i..]) && Values32(es[i..])
  {
    PartAscending(es, i);
    hide Ascending;
  }

  lemma {:induction false} DroppedBuildable(es: seq<Entry>, u: seq<Byte>)
    requires Buildable(es) && StartWith(es, u)
    ensures Buildable(Dropped(es, |u|)) && Prefixed(u, Dropped(es, |u|)) == es
  {
    DroppedAscending(es, u);
    DroppedPrefixed(es, u);
    hide Ascending;
  }

  lemma {:induction false} AfterEmpty(es: seq<Entry>)
    requires Buildable(es) && es[0].key == [] && |es| > 1
    ensures Buildable(es[1..]) && es[1].key != [] && es == [es[0]] + es[1..]
  {
    ElementsParts(es, 1);
    assert Before(es[0].key, es[1].key);
    hide Ascending;
  }

  lemma {:induction false} ManyUnits(es: seq<Entry>)
    requires Buildable(es) && es[0].key != [] && Common(es[0].key, es[|es| - 1].key) == 0
    ensures FirstBytes(es, 0, 0x100) && 2 <= CountUnits(es) <= 0x100
  {
    forall k | 0 <= k < |es| ensures es[k].key != [] {
      if 0 < k { assert Before(es[0].key, es[k].key); }
    }
    FewUnits(es, 0, 0x100);
    assert Unit(es[|es| - 1]) != Unit(es[0]);
    CountStep(es);
  }

  /** Whatever has been built is well-formed and sorted and holds exactly the elements. */
  lemma {:induction false} NodeBuilt(s: seq<Byte>, p: int, es: seq<Entry>)
    requires |s| <= INT32_MAX && Buildable(es) && Holds(s, p, NodeBytes(es))
    ensures Denotes(s, p, es) && (es[0].key != [] ==> s[p] < 0x20)
    decreases Size(es), 4
  {
    hide Denotes, EncodeValue, MatchBytes, Holds, Ascending;
    if es[0].key != [] {
      MatchBuilt(s, p, es);
    } else {
      var value := es[0].value;
      Int32OfSelf(value);
      if |es| == 1 {
        FinalBuilt(s, p, value);
        assert es == [Entry([], value)];
      } else {
        AfterEmpty(es);
        var v := EncodeValue(value, false);
        HoldsParts(s, p, v, MatchBytes(es[1..]));
        MatchBuilt(s, p + |v|, es[1..]);
        ValueBuilt(s, p, value, es[1..]);
      }
    }
  }

  lemma {:induction false} MatchBuilt(s: seq<Byte>, p: int, es: seq<Entry>)
    requires |s| <= INT32_MAX && Buildable(es) && es[0].key != [] && Holds(s, p, MatchBytes(es))
    ensures Denotes(s, p, es) && s[p] < 0x20
    decreases Size(es), 3
  {
    hide Denotes, NodeBytes, BranchBytes, Holds, Ascending, LinearBytes, BranchDenotes, HeadBytes, FirstBytes;
    hide MatchBytes, CountUnits, Common, Size, Values32;
    var n := Common(es[0].key, es[|es| - 1].key);
    MatchShape(es);
    if n > 0 {
      var u := es[0].key[..n];
      HoldsParts(s, p, LinearBytes(u), NodeBytes(Dropped(es, n)));
      NodeBuilt(s, p + |LinearBytes(u)|, Dropped(es, n));
      LinearBuilt(s, p, u, Dropped(es, n));
    } else {
      var head := HeadBytes(CountUnits(es));
      HoldsParts(s, p, head, BranchBytes(es));
      BranchBuilt(s, p + |head|, es, 0, 0x100);
      HeadBuilt(s, p, CountUnits(es), es);
    }
  }

  lemma {:induction false} MatchShape(es: seq<Entry>)
    requires Buildable(es) && es[0].key != []
    ensures var n := Common(es[0].key, es[|es| - 1].key);
            if n > 0 then
              var u, ds := es[0].key[..n], Dropped(es, n);
              && MatchBytes(es) == LinearBytes(u) + NodeBytes(ds) && Buildable(ds) && Prefixed(u, ds) == es
              && Size(ds) < Size(es)
            else
              && 2 <= CountUnits(es) <= 0x100 && FirstBytes(es, 0, 0x100)
              && MatchBytes(es) == HeadBytes(CountUnits(es)) + BranchBytes(es)
  {
    hide NodeBytes, BranchBytes, Ascending, LinearBytes, HeadBytes, Common, CountUnits;
    var n := Common(es[0].key, es[|es| - 1].key);
    if n > 0 {
      AllStartWith(es, n);
      DroppedBuildable(es, es[0].key[..n]);
      SizeDropped(es, n);
    } else {
      ManyUnits(es);
    }
  }

  lemma {:induction false} BranchBuilt(s: seq<Byte>, p: int, es: seq<Entry>, lo: int, hi: int)
    requires |s| <= INT32_MAX && Buildable(es) && FirstBytes(es, lo, hi) && Holds(s, p, BranchBytes(es))
    ensures BranchDenotes(s, p, CountUnits(es), lo, hi, es)
    decreases Size(es), 2
  {
    hide PairBytes, SubBytes, Holds, Ascending, BranchDenotes, EncodeJump, FirstBytes, SkipUnits, CountUnits;
    var n := CountUnits(es);
    if n > 5 {
      var i := SkipUnits(es, n / 2);
      SizeParts(es, i);
      ElementsParts(es, i);
      UnitChanges(es, n / 2);
      HalvesApart(es, i, lo, hi);
      HalvesBuilt(s, p, es, i, lo, hi);
    } else {
      HoldsParts(s, p, PairBytes(es, 0), SubBytes(es));
      PairBuilt(s, p, es, 0, lo, hi);
    }
  }

  lemma {:induction false} HalvesBuilt(s: seq<Byte>, p: int, es: seq<Entry>, i: nat, lo: int, hi: int)
    requires |s| <= INT32_MAX && 0 < i < |es| && Buildable(es[..i]) && Buildable(es[i..])
    requires FirstBytes(es[..i], lo, Unit(es[i])) && FirstBytes(es[i..], Unit(es[i]), hi) && lo <= Unit(es[i]) < hi
    requires 5 < CountUnits(es) && CountUnits(es[..i]) == CountUnits(es) / 2
    requires CountUnits(es[i..]) == CountUnits(es) - CountUnits(es) / 2
    requires var rest := BranchBytes(es[i..]);
             Holds(s, p, [Unit(es[i])] + EncodeJump(|rest|) + rest + BranchBytes(es[..i]))
    requires Size(es[..i]) < Size(es) && Size(es[i..]) < Size(es)
    ensures BranchDenotes(s, p, CountUnits(es), lo, hi, es)
    decreases Size(es), 1
  {
    hide BranchBytes, Ascending, BranchDenotes, EncodeJump, FirstBytes, CountUnits;
    var lessThan, rest := BranchBytes(es[..i]), BranchBytes(es[i..]);
    var head := [Unit(es[i])] + EncodeJump(|rest|);
    HoldsParts(s, p, head + rest, lessThan);
    HoldsParts(s, p, head, rest);
    BranchBuilt(s, p + |head|, es[i..], Unit(es[i]), hi);
    BranchBuilt(s, p + |head| + |rest|, es[..i], lo, Unit(es[i]));
    SplitBuilt(s, p, CountUnits(es), lo, hi, Unit(es[i]), |rest|, es[..i], es[i..]);
    assert es[..i] + es[i..] == es;
  }

  lemma {:induction false} PairBuilt(s: seq<Byte>, p: int, es: seq<Entry>, skip: nat, lo: int, hi: int)
    requires |s| <= INT32_MAX && Buildable(es) && FirstBytes(es, lo, hi) && CountUnits(es) <= 5
    requires Holds(s, p, PairBytes(es, skip)) && Holds(s, p + |PairBytes(es, skip)| + skip, SubBytes(es))
    ensures BranchDenotes(s, p, CountUnits(es), lo, hi, es)
    decreases Size(es), 1
  {
    hide NodeBytes, RunBytes, EdgeValue, Holds, Ascending, BranchDenotes, Denotes;
    var r, b := FirstRun(es), es[0].key[0];
    RunApart(es, lo, hi);
    SizeParts(es, r);
    ElementsParts(es, r);
    CountStep(es);
    if r == |es| {
      assert es[..r] == es;
      DroppedBuildable(es, [b]);
      SizeDropped(es, 1);
      HoldsFirst(s, p, b, NodeBytes(Dropped(es, 1)));
      NodeBuilt(s, p + 1, Dropped(es, 1));
      LastEdgeBuilt(s, p, lo, hi, b, Dropped(es, 1));
      assert CountUnits(es[r..]) == 0;
    } else {
      EdgeBuilt(s, p, es, skip, lo, hi);
    }
  }

  lemma {:induction false} EdgeShape(es: seq<Entry>, skip: nat)
    requires es != [] && es[0].key != [] && FirstRun(es) < |es|
    ensures var r := FirstRun(es);
            var rest := PairBytes(es[r..], skip + |RunBytes(es[..r])|);
            && PairBytes(es, skip) == [es[0].key[0]] + EdgeValue(es[..r], |rest| + skip) + rest
            && SubBytes(es) == RunBytes(es[..r]) + SubBytes(es[r..])
  {
    hide PairBytes, SubBytes, RunBytes, EdgeValue, FirstRun;
    PairShape(es, skip);
    SubShape(es);
  }

  lemma {:induction false} PairShape(es: seq<Entry>, skip: nat)
    requires es != [] && es[0].key != [] && FirstRun(es) < |es|
    ensures var r := FirstRun(es);
            PairBytes(es, skip) == FirstPair(es[..r], PairBytes(es[r..], skip + |RunBytes(es[..r])|), skip)
  {
    hide FirstRun, RunBytes, NodeBytes, FirstPair, SubBytes, Size, Dropped;
  }

  lemma {:induction false} SubShape(es: seq<Entry>)
    requires es != [] && FirstRun(es) < |es|
    ensures SubBytes(es) == RunBytes(es[..FirstRun(es)]) + SubBytes(es[FirstRun(es)..])
  {
    hide FirstRun, RunBytes;
  }

  /** The first edge of several. */
  lemma {:induction false} EdgeElements(es: seq<Entry>, lo: int, hi: int)
    requires Buildable(es) && FirstBytes(es, lo, hi) && FirstRun(es) < |es|
    ensures es[0].key != []
    ensures var r, b := FirstRun(es), es[0].key[0];
            && Buildable(es[..r]) && StartWith(es[..r], [b]) && lo <= b < hi && Size(es[..r]) < Size(es)
            && Buildable(es[r..]) && FirstBytes(es[r..], b as int + 1, hi) && Size(es[r..]) < Size(es)
            && CountUnits(es) == 1 + CountUnits(es[r..]) && CountUnits(es) >= 2 && es[..r] + es[r..] == es
  {
    hide Ascending, FirstRun, CountUnits, Size;
    var r := FirstRun(es);
    RunApart(es, lo, hi);
    SizeParts(es, r);
    SizePositive(es[..r]);
    SizePositive(es[r..]);
    ElementsParts(es, r);
    CountStep(es);
  }

  lemma {:induction false} SizePositive(es: seq<Entry>)
    requires es != []
    ensures 0 < Size(es)
  {
  }

  lemma {:induction false} EdgeBuilt(s: seq<Byte>, p: int, es: seq<Entry>, skip: nat, lo: int, hi: int)
    requires |s| <= INT32_MAX && Buildable(es) && FirstBytes(es, lo, hi) && CountUnits(es) <= 5
    requires FirstRun(es) < |es|
    requires Holds(s, p, PairBytes(es, skip)) && Holds(s, p + |PairBytes(es, skip)| + skip, SubBytes(es))
    ensures BranchDenotes(s, p, CountUnits(es), lo, hi, es)
    decreases Size(es), 0
  {
    hide *;
    EdgeElements(es, lo, hi);
    EdgeShape(es, skip);
    var b, run, es' := es[0].key[0], es[..FirstRun(es)], es[FirstRun(es)..];
    var skip' := skip + |RunBytes(run)|;
    var rest := PairBytes(es', skip');
    var edge := EdgeValue(run, |rest| + skip);
    HoldsParts(s, p, [b] + edge, rest);
    HoldsParts(s, p + |PairBytes(es, skip)| + skip, RunBytes(run), SubBytes(es'));
    PairBuilt(s, p + 1 + |edge|, es', skip', b as int + 1, hi);
    RunBuilt(s, p, CountUnits(es), run, b, |rest| + skip, es', lo, hi);
  }

  lemma {:induction false} RunBuilt(s: seq<Byte>, p: int, length: nat, run: seq<Entry>, b: Byte, jump: nat,
                                    rs: seq<Entry>, lo: int, hi: int)
    requires |s| <= INT32_MAX && Buildable(run) && StartWith(run, [b]) && lo <= b < hi && 2 <= length <= 5
    requires var edge := EdgeValue(run, jump);
             && Holds(s, p, [b] + edge) && Holds(s, p + 1 + |edge| + jump, RunBytes(run))
             && BranchDenotes(s, p + 1 + |edge|, length - 1, b as int + 1, hi, rs)
    ensures BranchDenotes(s, p, length, lo, hi, run + rs)
    decreases Size(run), 5
  {
    hide NodeBytes, EncodeValue, Ascending, BranchDenotes, Denotes;
    assert [b] <= run[0].key;
    if IsLeaf(run) {
      Int32OfSelf(run[0].value);
      assert run[0].key == [b];
      assert run == [Entry([b], run[0].value)];
      FinalEdgeBuilt(s, p, length, lo, hi, b, run[0].value, rs);
    } else {
      Int32OfSelf(jump);
      DroppedBuildable(run, [b]);
      SizeDropped(run, 1);
      var edge := EncodeValue(jump, false);
      NodeBuilt(s, p + 1 + |edge| + jump, Dropped(run, 1));
      JumpEdgeBuilt(s, p, length, lo, hi, b, jump, Dropped(run, 1), rs);
    }
  }
}
