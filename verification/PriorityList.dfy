/**
 A list of preferred locales with weights, as an Accept-Language header gives them (sections 14.4 and 3.9 of
 RFC 2616): each locale once, at the last place where it is named, most preferred first.
 */
module PriorityList {
  import opened Basics
  import opened ArraySort

  const WEIGHT_ONE := 1000

  /** One language range of the header, with its weight in thousandths. */
  datatype Field = Field(locale: string, weight: int)

  /** Field `p` counts: it is the last one for its locale, and its weight is not zero. */
  ghost predicate Live(fields: seq<Field>, p: int) {
    && 0 <= p < |fields| && fields[p].weight > 0
    && forall q :: p < q < |fields| ==> fields[q].locale != fields[p].locale
  }

  /** Slot `i` holds the field at position `at[i]`, or nothing. */
  ghost predicate SlotOk(fields: seq<Field>, at: seq<int>, s: seq<Entry>, i: int)
    requires 0 <= i < |s| == |at|
  {
    && s[i].index == i
    && if s[i].locale.None? then s[i].weight == 0
       else Live(fields, at[i]) && fields[at[i]] == Field(s[i].locale.value, s[i].weight)
  }

  /** Field `p` is in one of the slots. */
  ghost predicate Held(at: seq<int>, s: seq<Entry>, p: int)
    requires |s| == |at|
  {
    exists i :: 0 <= i < |s| && at[i] == p && s[i].locale.Some?
  }

  /** The slots hold exactly the live fields, in the order of the header. */
  ghost predicate Tracks(fields: seq<Field>, at: seq<int>, s: seq<Entry>) {
    && |s| == |at|
    && (forall i :: 0 <= i < |s| ==> 0 <= at[i] < |fields| && SlotOk(fields, at, s, i))
    && (forall i, j :: 0 <= i < j < |at| ==> at[i] < at[j])
    && (forall p :: Live(fields, p) ==> Held(at, s, p))
  }

  /** The map finds the slot of each locale in the list, and nothing else. */
  ghost predicate Indexed(s: seq<Entry>, m: map<string, int>) {
    && (forall i :: 0 <= i < |s| && s[i].locale.Some? ==> s[i].locale.value in m && m[s[i].locale.value] == i)
    && (forall l :: l in m ==> 0 <= m[l] < |s| && s[m[l]].locale == Some(l))
  }

  function Removed(s: seq<Entry>): (n: nat)
    ensures n <= |s|
  {
    if s == [] then 0 else Removed(s[..|s| - 1]) + if s[|s| - 1].locale.None? then 1 else 0
  }

  function Emptied(s: seq<Entry>, i: int): seq<Entry>
    requires 0 <= i < |s|
  {
    s[i := s[i].(locale := None, weight := 0)]
  }

  lemma {:induction false} RemovedEmptied(s: seq<Entry>, i: int)
    requires 0 <= i < |s| && s[i].locale.Some?
    ensures Removed(Emptied(s, i)) == Removed(s) + 1
  {
    var t, n := Emptied(s, i), |s| - 1;
    if i < n {
      assert t[..n] == Emptied(s[..n], i);
      RemovedEmptied(s[..n], i);
    } else {
      assert t[..n] == s[..n];
    }
  }

  // ----- adding a field

  lemma LiveNext(fields: seq<Field>, f: Field, p: int)
    ensures Live(fields + [f], p) <==>
              if p == |fields| then f.weight > 0 else Live(fields, p) && fields[p].locale != f.locale
  {
    var longer := fields + [f];
    if p < |fields| && Live(fields, p) && fields[p].locale != f.locale {
      assert forall q :: p < q < |longer| ==> longer[q].locale != longer[p].locale;
    }
    if 0 <= p < |fields| && Live(longer, p) {
      assert longer[|fields|].locale != fields[p].locale;
      assert forall q :: p < q < |fields| ==> fields[q] == longer[q];
    }
  }

  /** A field for a locale without a slot: nothing to remove. */
  lemma TracksAbsent(fields: seq<Field>, at: seq<int>, s: seq<Entry>, m: map<string, int>, f: Field)
    requires Tracks(fields, at, s) && Indexed(s, m) && f.locale !in m
    ensures Appendable(fields, at, s, f) && m - {f.locale} == m
  {
    forall i | 0 <= i < |s| ensures SlotOk(fields + [f], at, s, i) {
      assert SlotOk(fields, at, s, i);
      LiveNext(fields, f, at[i]);
    }
    forall p | Live(fields + [f], p) && p < |fields| ensures Held(at, s, p) { LiveNext(fields, f, p); }
  }

  /** A field for a locale that has a slot: the slot is emptied. */
  lemma TracksPresent(fields: seq<Field>, at: seq<int>, s: seq<Entry>, m: map<string, int>, f: Field)
    requires Tracks(fields, at, s) && Indexed(s, m) && f.locale in m
    ensures var t := Emptied(s, m[f.locale]);
            Appendable(fields, at, t, f) && Indexed(t, m - {f.locale})
  {
    var t := Emptied(s, m[f.locale]);
    forall i | 0 <= i < |s| ensures SlotOk(fields + [f], at, t, i) {
      assert SlotOk(fields, at, s, i);
      LiveNext(fields, f, at[i]);
    }
    forall p | Live(fields + [f], p) && p < |fields| ensures Held(at, t, p) {
      LiveNext(fields, f, p);
      var i :| 0 <= i < |s| && at[i] == p && s[i].locale.Some?;
      assert SlotOk(fields, at, s, i);
      assert t[i] == s[i];
    }
  }

  /** The slots are right for all fields before `f`, given that `f` follows. */
  ghost predicate Appendable(fields: seq<Field>, at: seq<int>, s: seq<Entry>, f: Field) {
    && |s| == |at| && (forall i :: 0 <= i < |at| ==> 0 <= at[i] < |fields|)
    && (forall i, j :: 0 <= i < j < |at| ==> at[i] < at[j])
    && (forall i :: 0 <= i < |s| ==> SlotOk(fields + [f], at, s, i))
    && (forall p :: Live(fields + [f], p) && p < |fields| ==> Held(at, s, p))
  }

  /** Appending the field itself. */
  lemma TracksAppend(fields: seq<Field>, at: seq<int>, s: seq<Entry>, f: Field)
    requires Appendable(fields, at, s, f)
    ensures f.weight <= 0 ==> Tracks(fields + [f], at, s)
    ensures f.weight > 0 ==>
              Tracks(fields + [f], at + [|fields|], s + [Entry(Some(f.locale), f.weight, |s|)])
  {
    LiveNext(fields, f, |fields|);
    if f.weight > 0 {
      var at', s' := at + [|fields|], s + [Entry(Some(f.locale), f.weight, |s|)];
      forall i | 0 <= i < |s'| ensures SlotOk(fields + [f], at', s', i) {
        if i < |s| { assert SlotOk(fields + [f], at, s, i); }
      }
      forall p | Live(fields + [f], p) ensures Held(at', s', p) {
        if p < |fields| {
          var i :| 0 <= i < |s| && at[i] == p && s[i].locale.Some?;
          assert at'[i] == p && s'[i].locale.Some?;
        } else {
          assert at'[|s|] == p && s'[|s|].locale.Some?;
        }
      }
    }
  }

  ghost predicate AtMostOne(fields: seq<Field>) {
    forall p :: 0 <= p < |fields| ==> fields[p].weight <= WEIGHT_ONE
  }

  lemma AtMostOneNext(fields: seq<Field>, f: Field)
    requires AtMostOne(fields) && f.weight <= WEIGHT_ONE
    ensures AtMostOne(fields + [f])
  {
  }

  /** Without other weights, all entries weigh 1. */
  ghost predicate NoOtherWeights(s: seq<Entry>) {
    forall i :: 0 <= i < |s| && s[i].locale.Some? ==> s[i].weight >= WEIGHT_ONE
  }

  lemma AppendIndexed(s: seq<Entry>, m: map<string, int>, l: string, e: Entry, t: seq<Entry>, m': map<string, int>)
    requires Indexed(s, m - {l}) && e.locale == Some(l) && t == s + [e] && m' == m[l := |s|]
    ensures Indexed(t, m')
  {
    forall k | k in m' ensures 0 <= m'[k] < |t| && t[m'[k]].locale == Some(k) {
      if k != l {
        assert k in m - {l};
        assert m'[k] == (m - {l})[k] < |s|;
        assert t[m'[k]] == s[m'[k]];
      }
    }
    forall i | 0 <= i < |t| && t[i].locale.Some? ensures t[i].locale.value in m' && m'[t[i].locale.value] == i {
      if i < |s| {
        assert t[i] == s[i];
        assert s[i].locale.value in m - {l};
      }
    }
  }

  lemma AppendEntry(s: seq<Entry>, m: map<string, int>, l: string, e: Entry)
    requires Indexed(s, m - {l}) && e.locale == Some(l)
    ensures Indexed(s + [e], m[l := |s|]) && Removed(s + [e]) == Removed(s)
    ensures NoOtherWeights(s) && e.weight >= WEIGHT_ONE ==> NoOtherWeights(s + [e])
  {
    hide Indexed;
    AppendIndexed(s, m, l, e, s + [e], m[l := |s|]);
    assert (s + [e])[..|s|] == s;
  }

  // ----- the order of preference

  /** Field `p` is preferred to field `q`: it has a greater weight, or the same weight and an earlier place. */
  ghost predicate Preferred(fields: seq<Field>, p: int, q: int) {
    && 0 <= p < |fields| && 0 <= q < |fields|
    && (fields[p].weight > fields[q].weight || (fields[p].weight == fields[q].weight && p < q))
  }

  /** Entry `e` stands for the live field `p`. */
  ghost predicate StandsFor(fields: seq<Field>, at: seq<int>, e: Entry, p: int) {
    && e.locale.Some? && 0 <= e.index < |at| && at[e.index] == p
    && Live(fields, p) && fields[p] == Field(e.locale.value, e.weight)
  }

  /** The entries that are not empty stand for the live fields, each once, the most preferred first. */
  ghost predicate Ranked(fields: seq<Field>, at: seq<int>, s: seq<Entry>) {
    && (forall i :: 0 <= i < |s| && s[i].locale.Some? ==>
          0 <= s[i].index < |at| && StandsFor(fields, at, s[i], at[s[i].index]))
    && (forall p :: Live(fields, p) ==> exists i :: 0 <= i < |s| && StandsFor(fields, at, s[i], p))
    && (forall i, j :: 0 <= i < j < |s| && s[i].locale.Some? && s[j].locale.Some? ==>
          InPreference(fields, at, s[i], s[j]))
  }

  ghost predicate InPreference(fields: seq<Field>, at: seq<int>, e: Entry, e': Entry) {
    0 <= e.index < |at| && 0 <= e'.index < |at| && Preferred(fields, at[e.index], at[e'.index])
  }

  lemma SlotStands(fields: seq<Field>, at: seq<int>, s: seq<Entry>, i: int)
    requires Tracks(fields, at, s) && 0 <= i < |s| && s[i].locale.Some?
    ensures StandsFor(fields, at, s[i], at[i]) && s[i].index == i
  {
    assert SlotOk(fields, at, s, i);
  }

  /** Entries in comparison order are in the order of preference. */
  lemma ComparedInPreference(fields: seq<Field>, at: seq<int>, s: seq<Entry>, i: int, j: int)
    requires Tracks(fields, at, s) && 0 <= i < |s| && 0 <= j < |s| && s[i].locale.Some? && s[j].locale.Some?
    requires AtMost(s[i], s[j]) && i != j
    ensures InPreference(fields, at, s[i], s[j])
  {
    SlotStands(fields, at, s, i);
    SlotStands(fields, at, s, j);
  }

  /** A list that is in comparison order already needs no sorting. */
  lemma RankedAsIs(fields: seq<Field>, at: seq<int>, s: seq<Entry>)
    requires Tracks(fields, at, s)
    requires forall i, j :: 0 <= i < j < |s| && s[i].locale.Some? && s[j].locale.Some? ==> AtMost(s[i], s[j])
    ensures Ranked(fields, at, s)
  {
    hide AtMost, InPreference;
    forall i | 0 <= i < |s| && s[i].locale.Some?
      ensures 0 <= s[i].index < |at| && StandsFor(fields, at, s[i], at[s[i].index])
    {
      SlotStands(fields, at, s, i);
    }
    forall p | Live(fields, p) ensures exists i :: 0 <= i < |s| && StandsFor(fields, at, s[i], p) {
      assert Held(at, s, p);
      var i :| 0 <= i < |s| && at[i] == p && s[i].locale.Some?;
      SlotStands(fields, at, s, i);
    }
    forall i, j | 0 <= i < j < |s| && s[i].locale.Some? && s[j].locale.Some?
      ensures InPreference(fields, at, s[i], s[j])
    {
      ComparedInPreference(fields, at, s, i, j);
    }
  }

  lemma OnceOnly(t: seq<Entry>, i: int, j: int)
    requires 0 <= i < j < |t| && t[i] == t[j]
    ensures multiset(t)[t[i]] >= 2
  {
    assert t == t[..i] + [t[i]] + t[i + 1..j] + [t[j]] + t[j + 1..];
  }

  lemma FoundOnce(s: seq<Entry>, p: int)
    requires 0 <= p < |s| && forall i :: 0 <= i < |s| ==> s[i].index == i
    ensures multiset(s)[s[p]] == 1
  {
    assert s == s[..p] + [s[p]] + s[p + 1..];
    assert s[p] !in s[..p] && s[p] !in s[p + 1..];
  }

  lemma RankedBySorting(fields: seq<Field>, at: seq<int>, s: seq<Entry>, t: seq<Entry>)
    requires Tracks(fields, at, s) && Rearranged(s, t, 0, |s|) && Sorted(t, 0, |t|)
    ensures Ranked(fields, at, t)
  {
    assert s[0..|s|] == s && t[0..|t|] == t;
    assert forall i :: 0 <= i < |s| ==> SlotOk(fields, at, s, i);
    hide AtMost, InPreference, SlotOk;
    forall i | 0 <= i < |t| && t[i].locale.Some?
      ensures 0 <= t[i].index < |at| && StandsFor(fields, at, t[i], at[t[i].index])
    {
      var p := RearrangedEntry(s, t, 0, |s|, i);
      SlotStands(fields, at, s, p);
    }
    forall p | Live(fields, p) ensures exists i :: 0 <= i < |t| && StandsFor(fields, at, t[i], p) {
      assert Held(at, s, p);
      var k :| 0 <= k < |s| && at[k] == p && s[k].locale.Some?;
      SlotStands(fields, at, s, k);
      var i := RearrangedEntry(t, s, 0, |t|, k);
    }
    forall i, j | 0 <= i < j < |t| && t[i].locale.Some? && t[j].locale.Some?
      ensures InPreference(fields, at, t[i], t[j])
    {
      SortedPair(fields, at, s, t, i, j);
    }
  }

  lemma SlotIndexes(fields: seq<Field>, at: seq<int>, s: seq<Entry>)
    requires Tracks(fields, at, s)
    ensures forall i :: 0 <= i < |s| ==> s[i].index == i
  {
    forall i | 0 <= i < |s| ensures s[i].index == i { assert SlotOk(fields, at, s, i); }
  }

  lemma SortedPair(fields: seq<Field>, at: seq<int>, s: seq<Entry>, t: seq<Entry>, i: int, j: int)
    requires Tracks(fields, at, s) && Rearranged(s, t, 0, |s|) && Sorted(t, 0, |t|)
    requires 0 <= i < j < |t| && t[i].locale.Some? && t[j].locale.Some?
    ensures InPreference(fields, at, t[i], t[j])
  {
    assert s[0..|s|] == s && t[0..|t|] == t;
    hide AtMost, InPreference;
    var p := RearrangedEntry(s, t, 0, |s|, i);
    var q := RearrangedEntry(s, t, 0, |s|, j);
    if p == q {
      OnceOnly(t, i, j);
      SlotIndexes(fields, at, s);
      FoundOnce(s, p);
    }
    ComparedInPreference(fields, at, s, p, q);
  }

  lemma {:induction false} FewLive(s: seq<Entry>, i: int, j: int)
    requires 0 <= i < j < |s| && s[i].locale.Some? && s[j].locale.Some?
    ensures |s| - Removed(s) >= 2
  {
    var n := |s| - 1;
    if j < n {
      FewLive(s[..n], i, j);
    } else {
      OneLive(s[..n], i);
    }
  }

  lemma {:induction false} OneLive(s: seq<Entry>, i: int)
    requires 0 <= i < |s| && s[i].locale.Some?
    ensures |s| - Removed(s) >= 1
  {
    if i < |s| - 1 { OneLive(s[..|s| - 1], i); }
  }

  lemma RearrangedPrefix(s: seq<Entry>, t: seq<Entry>, n: int)
    requires 0 <= n <= |s| && Rearranged(s, t, 0, n) && Sorted(t, 0, n)
    ensures Rearranged(s[..n], t[..n], 0, n) && Sorted(t[..n], 0, n) && multiset(s[..n]) == multiset(t[..n])
  {
    assert s[..n][0..n] == s[0..n] == s[..n] && t[..n][0..n] == t[0..n] == t[..n];
  }

  function Empties(e: Entry): int { if e.locale.None? then 1 else 0 }

  lemma {:induction false} RemovedDelete(t: seq<Entry>, k: int)
    requires 0 <= k < |t|
    ensures Removed(t) == Removed(t[..k] + t[k + 1..]) + Empties(t[k])
  {
    var n := |t| - 1;
    var u := t[..k] + t[k + 1..];
    if k < n {
      RemovedDelete(t[..n], k);
      assert t[..n][..k] + t[..n][k + 1..] == u[..n - 1];
    } else {
      assert u == t[..n];
    }
  }

  lemma WithoutOne(t: seq<Entry>, k: int)
    requires 0 <= k < |t|
    ensures multiset(t[..k] + t[k + 1..]) == multiset(t) - multiset{t[k]}
  {
    assert t == t[..k] + ([t[k]] + t[k + 1..]);
  }

  lemma SameRest(s: seq<Entry>, t: seq<Entry>, k: int)
    requires multiset(s) == multiset(t) && s != [] && 0 <= k < |t| && t[k] == s[|s| - 1]
    ensures multiset(s[..|s| - 1]) == multiset(t[..k] + t[k + 1..])
  {
    var n := |s| - 1;
    WithoutOne(s, n);
    WithoutOne(t, k);
    assert s[..n] + s[n + 1..] == s[..n];
  }

  lemma {:induction false} RemovedSame(s: seq<Entry>, t: seq<Entry>)
    requires multiset(s) == multiset(t)
    ensures Removed(s) == Removed(t)
  {
    if s == [] {
      assert |multiset(t)| == 0;
    } else {
      var n := |s| - 1;
      assert s[n] in multiset(t);
      var k :| 0 <= k < |t| && t[k] == s[n];
      var u := t[..k] + t[k + 1..];
      RemovedDelete(t, k);
      SameRest(s, t, k);
      RemovedSame(s[..n], u);
    }
  }

  class LocalePriorityList {
    var list: array<Entry>
    var listLength: int
    var numRemoved: int
    var hasWeights: bool
    var index: Option<map<string, int>>
    /** The fields added so far, and which of them each slot was made for. */
    ghost var fields: seq<Field>
    ghost var at: seq<int>

    ghost function Slots(): seq<Entry>
      reads this, list
    {
      if 0 <= listLength <= list.Length then list[..listLength] else []
    }

    function Map(): map<string, int>
      reads this
    {
      if index.Some? then index.value else map[]
    }

    ghost predicate Valid()
      reads this, list
    {
      && 0 <= listLength <= list.Length
      && Tracks(fields, at, Slots()) && Indexed(Slots(), Map()) && numRemoved == Removed(Slots())
      && (index.None? ==> listLength == 0) && (!hasWeights ==> NoOtherWeights(Slots()))
      && AtMostOne(fields)
    }

    constructor ()
      ensures Valid() && fields == [] && fresh(list)
    {
      list := new Entry[20](_ => Entry(None, 0, 0));
      listLength, numRemoved, hasWeights, index := 0, 0, false, None;
      fields, at := [], [];
    }

    function GetLength(): int
      reads this
    {
      listLength - numRemoved
    }

    /** Makes room for one more entry. */
    method Grow()
      requires 0 <= listLength <= list.Length
      modifies `list
      ensures listLength < list.Length && Slots() == old(Slots()) && (list == old(list) || fresh(list))
    {
      if listLength == list.Length {
        var newCapacity := if listLength < 50 then 100 else 4 * listLength;
        var old_ := list;
        var bigger := new Entry[newCapacity](_ => Entry(None, 0, 0));
        forall k | 0 <= k < listLength {
          bigger[k] := old_[k];
        }
        list := bigger;
        assert list[..listLength] == old(list[..listLength]);
      }
    }

    /** Empties the slot of a locale that is named again. */
    method Remove(locale: string, ghost f: Field)
      requires Valid() && locale in Map() && f.locale == locale
      modifies list, `numRemoved
      ensures 0 <= listLength <= list.Length && Slots() == Emptied(old(Slots()), Map()[locale])
      ensures Indexed(Slots(), Map() - {locale}) && numRemoved == Removed(Slots())
      ensures Appendable(fields, at, Slots(), f)
      ensures !hasWeights ==> NoOtherWeights(Slots())
    {
      var i := Map()[locale];
      ghost var s := Slots();
      RemovedEmptied(s, i);
      TracksPresent(fields, at, s, Map(), f);
      list[i] := list[i].(locale := None, weight := 0);
      numRemoved := numRemoved + 1;
      assert list[..listLength] == Emptied(s, i);
    }

    /** Everything but the new field is in place. */
    ghost predicate Prepared(f: Field)
      reads this, list
    {
      && 0 <= listLength <= list.Length && Appendable(fields, at, Slots(), f)
      && Indexed(Slots(), Map() - {f.locale}) && numRemoved == Removed(Slots())
      && (index.None? ==> listLength == 0) && (!hasWeights ==> NoOtherWeights(Slots())) && AtMostOne(fields)
    }

    method Prepare(locale: string, ghost f: Field) returns (found: bool)
      requires Valid() && f.locale == locale
      modifies list, `numRemoved
      ensures Prepared(f) && found == (locale in Map())
    {
      hide Tracks, Indexed, Removed, NoOtherWeights, Appendable;
      found := locale in Map();
      if found {
        Remove(locale, f);
      } else {
        TracksAbsent(fields, at, Slots(), Map(), f);
      }
    }

    /** Adds a field: a locale named before loses its earlier place, and a weight of zero gives it no new one. */
    method Add(locale: string, weight: int, failure: bool) returns (ok: bool)
      requires Valid() && weight <= WEIGHT_ONE
      modifies this, list
      ensures Valid() && ok == !failure && (list == old(list) || fresh(list))
      ensures fields == old(fields) + if failure then [] else [Field(locale, weight)]
    {
      if failure {
        return false;
      }
      ok := true;
      ghost var f := Field(locale, weight);
      if index.None? {
        if weight <= 0 {
          TracksAbsent(fields, at, Slots(), Map(), f);
          TracksAppend(fields, at, Slots(), f);
          fields := fields + [f];
          return;
        }
        index := Some(map[]);
      }
      hide Tracks, Indexed, Removed, NoOtherWeights, Appendable, AtMostOne;
      var found := Prepare(locale, f);
      if weight <= 0 {
        Forget(locale, found, f);
      } else {
        Grow();
        Append(locale, weight);
      }
    }

    /** A weight of zero: the locale is not in the list any more. */
    method Forget(locale: string, found: bool, ghost f: Field)
      requires f.locale == locale && f.weight <= 0 && Prepared(f) && found == (locale in Map())
      modifies `index, `fields
      ensures Valid() && fields == old(fields) + [f]
    {
      hide Indexed, Removed, NoOtherWeights;
      TracksAppend(fields, at, Slots(), f);
      hide Tracks, Appendable;
      assert !found ==> Map() - {locale} == Map();
      if found {
        index := Some(Map() - {locale});
      }
      fields := fields + [f];
    }

    /** Puts a locale into the next slot. */
    method Append(locale: string, weight: int)
      requires Prepared(Field(locale, weight)) && listLength < list.Length && index.Some? && 0 < weight <= WEIGHT_ONE
      modifies this, list
      ensures Valid() && list == old(list) && fields == old(fields) + [Field(locale, weight)]
    {
      hide Tracks, Indexed, Removed, NoOtherWeights, Appendable, AtMostOne;
      ghost var s := Slots();
      AppendEntry(s, Map(), locale, Entry(Some(locale), weight, listLength));
      TracksAppend(fields, at, s, Field(locale, weight));
      AtMostOneNext(fields, Field(locale, weight));
      index := Some(Map()[locale := listLength]);
      list[listLength] := Entry(Some(locale), weight, listLength);
      listLength := listLength + 1;
      if weight < WEIGHT_ONE {
        hasWeights := true;
      }
      fields, at := fields + [Field(locale, weight)], at + [|fields|];
      assert Slots() == s + [Entry(Some(locale), weight, |s|)];
    }

    /** Puts the entries into the order of preference, if they are not in it already. */
    method Sort(failure: bool)
      requires Valid()
      modifies list
      ensures 0 <= listLength <= list.Length && numRemoved == Removed(Slots())
      ensures !failure ==> Ranked(fields, at, Slots())
    {
      if failure {
        return;
      }
      ghost var s := Slots();
      if GetLength() <= 1 || !hasWeights {
        forall i, j | 0 <= i < j < |s| && s[i].locale.Some? && s[j].locale.Some? ensures AtMost(s[i], s[j]) {
          if GetLength() <= 1 { FewLive(s, i, j); }
          assert SlotOk(fields, at, s, i) && SlotOk(fields, at, s, j);
        }
        RankedAsIs(fields, at, s);
        return;
      }
      hide Tracks, Indexed, AtMost, Removed;
      ghost var whole := list[..];
      SortArray(list, listLength);
      RearrangedPrefix(whole, list[..], listLength);
      RankedBySorting(fields, at, s, Slots());
      RemovedSame(s, Slots());
    }
  }

  /** Goes through the locales of a list. */
  /** An entry that is not empty is left from `i` on. */
  ghost predicate AnyLeft(s: seq<Entry>, i: int) {
    exists k :: 0 <= i <= k < |s| && s[k].locale.Some?
  }

  lemma PassEntry(s: seq<Entry>, i: int)
    requires 0 <= i < |s|
    ensures Removed(s[..i + 1]) == Removed(s[..i]) + if s[i].locale.None? then 1 else 0
    ensures s[i].locale.None? ==> (AnyLeft(s, i) <==> AnyLeft(s, i + 1))
  {
    assert s[..i + 1][..i] == s[..i];
  }

  class Iterator {
    const entries: seq<Entry>
    const length: int
    var index: int
    var count: int

    ghost predicate Valid()
      reads this
    {
      && 0 <= index <= |entries| && length == |entries| - Removed(entries)
      && count == index - Removed(entries[..index])
    }

    constructor (entries: seq<Entry>, length: int)
      requires length == |entries| - Removed(entries)
      ensures Valid() && this.entries == entries && index == 0
    {
      this.entries, this.length := entries, length;
      index, count := 0, 0;
    }

    /** Whether any entry that is not empty is left. */
    method HasNext() returns (r: bool)
      requires Valid()
      ensures (r <==> AnyLeft(entries, index)) && 0 <= index <= |entries|
    {
      r := count < length;
      RestLive(entries, index);
    }

    /** The next locale: empty entries are passed over. */
    method Next() returns (locale: string)
      requires Valid() && AnyLeft(entries, index)
      modifies `index, `count
      ensures Valid() && 0 <= old(index) < index <= |entries| && entries[index - 1].locale == Some(locale)
      ensures forall i :: old(index) <= i < index - 1 ==> entries[i].locale.None?
    {
      hide Removed;
      while entries[index].locale.None?
        invariant Valid() && old(index) <= index < |entries|
        invariant forall i :: old(index) <= i < index ==> entries[i].locale.None?
        invariant AnyLeft(entries, index)
        decreases |entries| - index
      {
        PassEntry(entries, index);
        index := index + 1;
      }
      PassEntry(entries, index);
      locale := entries[index].locale.value;
      index, count := index + 1, count + 1;
    }
  }

  lemma {:induction false} RestLive(s: seq<Entry>, i: int)
    requires 0 <= i <= |s|
    ensures i - Removed(s[..i]) <= |s| - Removed(s)
    ensures i - Removed(s[..i]) < |s| - Removed(s) <==> exists k :: i <= k < |s| && s[k].locale.Some?
    decreases |s| - i
  {
    if i == |s| {
      assert s[..i] == s;
    } else {
      RestLive(s, i + 1);
      assert s[..i + 1][..i] == s[..i];
    }
  }
}
