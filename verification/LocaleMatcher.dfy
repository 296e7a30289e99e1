/**
 The supported locales of a matcher: an index without duplicates, with locales equivalent to the default first
 and paradigm locales next.
 */
module LocaleMatcher {
  import opened Basics
  import opened LocaleDistance

  /** Same language, script and region. */
  predicate Equivalent(a: LSR, b: LSR) { a.language == b.language && a.script == b.script && a.region == b.region }

  /** 1 for locales equivalent to the default, 2 for paradigm locales, 3 for all others. */
  function Class(l: LSR, default: Option<LSR>, paradigms: seq<LSR>): (c: int)
    ensures 1 <= c <= 3
  {
    if default.Some? && Equivalent(l, default.value) then 1
    else if exists k :: 0 <= k < |paradigms| && Equivalent(l, paradigms[k]) then 2
    else 3
  }

  predicate Before(c: int, i: int, c': int, i': int) { c < c' || (c == c' && i < i') }

  /** Locales of class 2 among the first `n`. */
  function CountParadigms(classes: seq<int>, n: nat): (r: nat)
    requires n <= |classes|
  {
    if n == 0 then 0 else CountParadigms(classes, n - 1) + if classes[n - 1] == 2 then 1 else 0
  }

  lemma CountNone(classes: seq<int>)
    ensures CountParadigms(classes, 0) == 0
  {
  }

  lemma CountNext(classes: seq<int>, i: nat)
    requires i < |classes|
    ensures CountParadigms(classes, i + 1) == CountParadigms(classes, i) + if classes[i] == 2 then 1 else 0
  {
  }

  lemma {:induction false} NoMoreParadigms(classes: seq<int>, i: nat, n: nat)
    requires i <= n <= |classes|
    ensures CountParadigms(classes, i) <= CountParadigms(classes, n)
    ensures CountParadigms(classes, i) == CountParadigms(classes, n) ==> forall j :: i <= j < n ==> classes[j] != 2
  {
    if i < n { NoMoreParadigms(classes, i, n - 1); }
  }

  // ----- the index of supported locales

  /** A map from locales to positions in the input, and the list of its entries. */
  datatype Index = Index(toIndex: map<LSR, int>, lsrs: seq<LSR>, indexes: seq<int>)

  ghost predicate EntryOk(input: seq<LSR>, x: Index, k: int)
    requires 0 <= k < |x.lsrs| == |x.indexes|
  {
    var i := x.indexes[k];
    && 0 <= i < |input| && input[i] == x.lsrs[k] && x.lsrs[k] in x.toIndex && x.toIndex[x.lsrs[k]] == i
    && forall j :: 0 <= j < i ==> input[j] != x.lsrs[k]
  }

  /** The list and the map hold the same locales, each once, with the first position it has in the input. */
  ghost predicate Consistent(input: seq<LSR>, x: Index) {
    && |x.lsrs| == |x.indexes|
    && (forall k :: 0 <= k < |x.lsrs| ==> EntryOk(input, x, k))
    && (forall l :: l in x.toIndex ==> l in x.lsrs)
  }

  /** Position `i` comes before position `i'` in the order of classes and, within them, of the input. */
  ghost predicate Precedes(classes: seq<int>, i: int, c': int, i': int) {
    0 <= i < |classes| && Before(classes[i], i, c', i')
  }

  /** Entries are in order, and all come before class `c` and position `i`. */
  ghost predicate InOrder(classes: seq<int>, x: Index, c: int, i: int) {
    && (forall k :: 0 <= k < |x.indexes| ==> Precedes(classes, x.indexes[k], c, i))
    && (forall a, b :: 0 <= a < b < |x.indexes| ==>
          0 <= x.indexes[b] < |classes| && Precedes(classes, x.indexes[a], classes[x.indexes[b]], x.indexes[b]))
  }

  /** All locales before class `c` and position `i` are there. */
  ghost predicate Covers(input: seq<LSR>, classes: seq<int>, x: Index, c: int, i: int)
    requires |input| == |classes|
  {
    forall j :: 0 <= j < |input| && Precedes(classes, j, c, i) ==> input[j] in x.toIndex
  }

  ghost predicate ClassesOf(input: seq<LSR>, classes: seq<int>, default: Option<LSR>, paradigms: seq<LSR>) {
    |classes| == |input| && forall j :: 0 <= j < |input| ==> classes[j] == Class(input[j], default, paradigms)
  }

  /** Everything before class `c` and position `i` has been added in order. */
  ghost predicate Progress(input: seq<LSR>, classes: seq<int>, x: Index, c: int, i: int) {
    && |input| == |classes| && Consistent(input, x) && InOrder(classes, x, c, i) && Covers(input, classes, x, c, i)
    && forall a, b :: 0 <= a < |input| && 0 <= b < |input| && input[a] == input[b] ==> classes[a] == classes[b]
  }

  function Put(input: seq<LSR>, x: Index, i: int): Index
    requires 0 <= i < |input|
  {
    if input[i] in x.toIndex then x else Index(x.toIndex[input[i] := i], x.lsrs + [input[i]], x.indexes + [i])
  }

  lemma PutConsistent(input: seq<LSR>, classes: seq<int>, x: Index, i: int)
    requires 0 <= i < |input| == |classes| && Progress(input, classes, x, classes[i], i)
    ensures Consistent(input, Put(input, x, i))
  {
    hide InOrder, Class;
    var y := Put(input, x, i);
    if y != x {
      forall j | 0 <= j < i ensures input[j] != input[i] {
        assert classes[j] == classes[i] ==> Precedes(classes, j, classes[i], i);
      }
      forall k | 0 <= k < |y.lsrs| ensures EntryOk(input, y, k) {
        if k < |x.lsrs| { assert EntryOk(input, x, k); }
      }
    }
  }

  lemma PutInOrder(input: seq<LSR>, classes: seq<int>, x: Index, i: int)
    requires 0 <= i < |input| == |classes| && Progress(input, classes, x, classes[i], i)
    ensures InOrder(classes, Put(input, x, i), classes[i], i + 1)
    ensures Covers(input, classes, Put(input, x, i), classes[i], i + 1)
  {
    hide Consistent;
    var y := Put(input, x, i);
    forall k | 0 <= k < |y.indexes| ensures Precedes(classes, y.indexes[k], classes[i], i + 1) {
      if k < |x.indexes| { assert Precedes(classes, x.indexes[k], classes[i], i); }
    }
    forall j | 0 <= j < |input| && Precedes(classes, j, classes[i], i + 1) ensures input[j] in y.toIndex {
      if j != i { assert Precedes(classes, j, classes[i], i); }
    }
  }

  /** Adding a locale unless it is there already keeps the index in order. */
  lemma PutKeeps(input: seq<LSR>, classes: seq<int>, x: Index, i: int)
    requires 0 <= i < |input| == |classes| && Progress(input, classes, x, classes[i], i)
    ensures Progress(input, classes, Put(input, x, i), classes[i], i + 1)
  {
    PutConsistent(input, classes, x, i);
    PutInOrder(input, classes, x, i);
    hide Consistent, InOrder, Covers, Put;
  }

  /** A locale of another class is left to a later pass. */
  lemma SkipKeeps(input: seq<LSR>, classes: seq<int>, x: Index, c: int, i: int)
    requires 0 <= i < |input| == |classes| && Progress(input, classes, x, c, i) && classes[i] != c
    ensures Progress(input, classes, x, c, i + 1)
  {
    hide Consistent;
    forall k | 0 <= k < |x.indexes| ensures Precedes(classes, x.indexes[k], c, i + 1) {
      assert Precedes(classes, x.indexes[k], c, i);
    }
    forall j | 0 <= j < |input| && Precedes(classes, j, c, i + 1) ensures input[j] in x.toIndex {
      assert Precedes(classes, j, c, i);
    }
  }

  /** The end of a pass is the start of the next one. */
  lemma NextPass(input: seq<LSR>, classes: seq<int>, x: Index, c: int, i: int)
    requires 0 <= i <= |input| == |classes| && Progress(input, classes, x, c, i)
    requires forall j :: i <= j < |input| ==> classes[j] != c
    ensures Progress(input, classes, x, c + 1, 0)
  {
    hide Consistent;
    forall k | 0 <= k < |x.indexes| ensures Precedes(classes, x.indexes[k], c + 1, 0) {
      assert Precedes(classes, x.indexes[k], c, i);
    }
    forall j | 0 <= j < |input| && Precedes(classes, j, c + 1, 0) ensures input[j] in x.toIndex {
      assert Precedes(classes, j, c, i);
    }
  }

  /** The default locale: the one that was set, or else the first supported one unless that is turned off. */
  function DefaultOf(lsrs: seq<LSR>, default: Option<LSR>, withDefault: bool): Option<LSR> {
    if default.Some? then default else if withDefault && lsrs != [] then Some(lsrs[0]) else None
  }

  function ClassList(lsrs: seq<LSR>, default: Option<LSR>, paradigms: seq<LSR>): (classes: seq<int>)
    ensures ClassesOf(lsrs, classes, default, paradigms)
  {
    seq(|lsrs|, j requires 0 <= j < |lsrs| => Class(lsrs[j], default, paradigms))
  }

  class Matcher {
    const lsrs: seq<LSR>
    var toIndex: map<LSR, int>
    var supportedLSRs: seq<LSR>
    var supportedIndexes: seq<int>

    ghost function Contents(): Index
      reads this
    {
      Index(toIndex, supportedLSRs, supportedIndexes)
    }

    constructor (lsrs: seq<LSR>, default: Option<LSR>, withDefault: bool, paradigms: seq<LSR>)
      ensures this.lsrs == lsrs
      ensures Progress(lsrs, ClassList(lsrs, DefaultOf(lsrs, default, withDefault), paradigms), Contents(), 4, 0)
    {
      this.lsrs := lsrs;
      toIndex, supportedLSRs, supportedIndexes := map[], [], [];
      new;
      ghost var classes := ClassList(lsrs, DefaultOf(lsrs, default, withDefault), paradigms);
      hide Class;
      var order, numParadigms := AddDefaults(default, withDefault, paradigms);
      assert order == classes;
      AddParadigms(order, |supportedLSRs| + numParadigms);
      AddOthers(order);
    }

    /** Adds a locale unless one with the same language, script, region and flags is there already. */
    method PutIfAbsent(i: int)
      requires 0 <= i < |lsrs|
      modifies `toIndex, `supportedLSRs, `supportedIndexes
      ensures Contents() == Put(lsrs, old(Contents()), i)
    {
      var lsr := lsrs[i];
      if lsr !in toIndex {
        toIndex := toIndex[lsr := i];
        supportedLSRs := supportedLSRs + [lsr];
        supportedIndexes := supportedIndexes + [i];
      }
    }

    /** Determines the order of insertion and adds the locales that are equivalent to the default. */
    method AddDefaults(default: Option<LSR>, withDefault: bool, paradigms: seq<LSR>)
      returns (order: seq<int>, numParadigms: nat)
      requires Contents() == Index(map[], [], [])
      modifies `toIndex, `supportedLSRs, `supportedIndexes
      ensures order == ClassList(lsrs, DefaultOf(lsrs, default, withDefault), paradigms)
      ensures numParadigms == CountParadigms(order, |order|)
      ensures Progress(lsrs, order, Contents(), 2, 0)
    {
      hide Progress, Put, ClassList, CountParadigms, ClassesOf;
      ghost var classes := ClassList(lsrs, DefaultOf(lsrs, default, withDefault), paradigms);
      EmptyProgress(lsrs, DefaultOf(lsrs, default, withDefault), paradigms);
      CountNone(classes);
      var def := default;
      order, numParadigms := [], 0;
      var i := 0;
      while i < |lsrs|
        invariant 0 <= i <= |lsrs| && |order| == i && order == classes[..i]
        invariant def == if default.Some? || i > 0 then DefaultOf(lsrs, default, withDefault) else None
        invariant numParadigms == CountParadigms(classes, i)
        invariant Progress(lsrs, classes, Contents(), 1, i)
      {
        if def.None? && withDefault {
          def := Some(lsrs[i]);
        }
        var c := AddClassified(i, def, paradigms, classes);
        CountNext(classes, i);
        if c == 2 {
          numParadigms := numParadigms + 1;
        }
        assert classes[..i + 1] == classes[..i] + [c];
        order := order + [c];
        i := i + 1;
      }
      assert classes[..i] == classes;
      NextPass(lsrs, classes, Contents(), 1, i);
    }

    /** Determines the class of a locale and adds it if it is equivalent to the default. */
    method AddClassified(i: int, def: Option<LSR>, paradigms: seq<LSR>, ghost classes: seq<int>) returns (c: int)
      requires 0 <= i < |lsrs| == |classes| && ClassesOf(lsrs, classes, def, paradigms)
      requires Progress(lsrs, classes, Contents(), 1, i)
      modifies `toIndex, `supportedLSRs, `supportedIndexes
      ensures c == classes[i] && Progress(lsrs, classes, Contents(), 1, i + 1)
    {
      hide Progress, Put, Class;
      c := ClassOf(lsrs[i], def, paradigms);
      if c == 1 {
        PutKeeps(lsrs, classes, Contents(), i);
        PutIfAbsent(i);
      } else {
        SkipKeeps(lsrs, classes, Contents(), 1, i);
      }
    }

    /** Adds the paradigm locales, until there can be no more. */
    method AddParadigms(order: seq<int>, paradigmLimit: int)
      requires Progress(lsrs, order, Contents(), 2, 0)
      requires paradigmLimit == |supportedLSRs| + CountParadigms(order, |order|)
      modifies `toIndex, `supportedLSRs, `supportedIndexes
      ensures Progress(lsrs, order, Contents(), 3, 0)
    {
      assert |order| == |lsrs|;
      hide Progress;
      ghost var before := |supportedLSRs|;
      var i := 0;
      while i < |lsrs| && |supportedLSRs| < paradigmLimit
        invariant 0 <= i <= |lsrs| && Progress(lsrs, order, Contents(), 2, i)
        invariant |supportedLSRs| <= before + CountParadigms(order, i)
      {
        if order[i] == 2 {
          PutKeeps(lsrs, order, Contents(), i);
          PutIfAbsent(i);
        } else {
          SkipKeeps(lsrs, order, Contents(), 2, i);
        }
        i := i + 1;
      }
      NoMoreParadigms(order, i, |order|);
      NextPass(lsrs, order, Contents(), 2, i);
    }

    method AddOthers(order: seq<int>)
      requires Progress(lsrs, order, Contents(), 3, 0)
      modifies `toIndex, `supportedLSRs, `supportedIndexes
      ensures Progress(lsrs, order, Contents(), 4, 0)
    {
      assert |order| == |lsrs|;
      hide Progress, Put;
      var i := 0;
      while i < |lsrs|
        invariant 0 <= i <= |lsrs| && Progress(lsrs, order, Contents(), 3, i)
      {
        if order[i] == 3 {
          PutKeeps(lsrs, order, Contents(), i);
          PutIfAbsent(i);
        } else {
          SkipKeeps(lsrs, order, Contents(), 3, i);
        }
        i := i + 1;
      }
      NextPass(lsrs, order, Contents(), 3, i);
    }
  }

  method ClassOf(l: LSR, default: Option<LSR>, paradigms: seq<LSR>) returns (c: int)
    ensures c == Class(l, default, paradigms)
  {
    if default.Some? && Equivalent(l, default.value) {
      return 1;
    }
    var paradigm := IsParadigm(l, paradigms);
    return if paradigm then 2 else 3;
  }

  method IsParadigm(l: LSR, paradigms: seq<LSR>) returns (found: bool)
    ensures found <==> exists k :: 0 <= k < |paradigms| && Equivalent(l, paradigms[k])
  {
    for k := 0 to |paradigms|
      invariant forall j :: 0 <= j < k ==> !Equivalent(l, paradigms[j])
    {
      if Equivalent(l, paradigms[k]) {
        return true;
      }
    }
    return false;
  }

  lemma EmptyProgress(input: seq<LSR>, default: Option<LSR>, paradigms: seq<LSR>)
    ensures |ClassList(input, default, paradigms)| == |input|
    ensures Progress(input, ClassList(input, default, paradigms), Index(map[], [], []), 1, 0)
  {
    hide Class;
    var classes := ClassList(input, default, paradigms);
    forall j | 0 <= j < |input| ensures 1 <= classes[j] { assert classes[j] == Class(input[j], default, paradigms); }
  }

  /**
   The complete index: every supported locale is found at the first position with its language, script, region
   and flags, and the list holds each of them once, by class and then by position.
   */
  lemma CompleteIndex(lsrs: seq<LSR>, default: Option<LSR>, paradigms: seq<LSR>, x: Index)
    requires Progress(lsrs, ClassList(lsrs, default, paradigms), x, 4, 0)
    ensures forall i :: 0 <= i < |lsrs| ==>
              && lsrs[i] in x.toIndex && 0 <= x.toIndex[lsrs[i]] <= i && lsrs[x.toIndex[lsrs[i]]] == lsrs[i]
    ensures forall a, b :: 0 <= a < b < |x.lsrs| ==> x.lsrs[a] != x.lsrs[b]
    ensures forall l :: l in x.toIndex <==> l in lsrs
  {
    hide Class;
    var classes := ClassList(lsrs, default, paradigms);
    forall i | 0 <= i < |lsrs|
      ensures lsrs[i] in x.toIndex && 0 <= x.toIndex[lsrs[i]] <= i && lsrs[x.toIndex[lsrs[i]]] == lsrs[i]
    {
      assert Precedes(classes, i, 4, 0);
      var k :| 0 <= k < |x.lsrs| && x.lsrs[k] == lsrs[i];
      assert EntryOk(lsrs, x, k);
    }
    forall a, b | 0 <= a < b < |x.lsrs| ensures x.lsrs[a] != x.lsrs[b] {
      assert EntryOk(lsrs, x, a) && EntryOk(lsrs, x, b);
    }
    forall l ensures l in x.toIndex <==> l in lsrs {
      if l in x.toIndex {
        var k :| 0 <= k < |x.lsrs| && x.lsrs[k] == l;
        assert EntryOk(lsrs, x, k);
      }
    }
  }

  /** The same but for what was given explicitly. */
  predicate Alike(a: LSR, b: LSR) { a.(flags := 0) == b.(flags := 0) }

  ghost predicate LikeDefault(l: LSR, default: Option<LSR>) { default.Some? && Alike(l, default.value) }

  ghost predicate LikeParadigm(l: LSR, paradigms: seq<LSR>) {
    exists k :: 0 <= k < |paradigms| && Alike(l, paradigms[k])
  }

  /**
   Locales like the default come first, then those like a paradigm locale, then all others; each group is in the
   order of the input.
   */
  lemma IndexOrder(lsrs: seq<LSR>, default: Option<LSR>, paradigms: seq<LSR>, x: Index, a: int, b: int)
    requires Progress(lsrs, ClassList(lsrs, default, paradigms), x, 4, 0) && 0 <= a < b < |x.lsrs| == |x.indexes|
    ensures LikeDefault(x.lsrs[b], default) ==> LikeDefault(x.lsrs[a], default)
    ensures LikeParadigm(x.lsrs[b], paradigms) ==>
              LikeDefault(x.lsrs[a], default) || LikeParadigm(x.lsrs[a], paradigms)
    ensures && (LikeDefault(x.lsrs[a], default) <==> LikeDefault(x.lsrs[b], default))
            && (LikeParadigm(x.lsrs[a], paradigms) <==> LikeParadigm(x.lsrs[b], paradigms))
            ==> x.indexes[a] < x.indexes[b]
  {
    var classes := ClassList(lsrs, default, paradigms);
    var i, j := x.indexes[a], x.indexes[b];
    assert EntryOk(lsrs, x, a) && EntryOk(lsrs, x, b);
    assert Precedes(classes, i, classes[j], j);
    ClassIs(x.lsrs[a], default, paradigms);
    ClassIs(x.lsrs[b], default, paradigms);
    hide Class;
  }

  lemma ClassIs(l: LSR, default: Option<LSR>, paradigms: seq<LSR>)
    ensures Class(l, default, paradigms) ==
              if LikeDefault(l, default) then 1 else if LikeParadigm(l, paradigms) then 2 else 3
  {
    assert forall k :: 0 <= k < |paradigms| ==> (Alike(l, paradigms[k]) <==> Equivalent(l, paradigms[k]));
  }
}
