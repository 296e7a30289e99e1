/** From the fields of an Accept-Language header to the order in which its locales are tried. */
module Ranking {
  import opened ArraySort
  import opened PriorityList

  /** Entries `slots`, in ascending order, stand for the fields at `places`. */
  ghost predicate Chosen(at: seq<int>, s: seq<Entry>, slots: seq<int>, places: seq<int>, upTo: int) {
    && |slots| == |places|
    && (forall k :: 0 <= k < |slots| ==>
          && 0 <= slots[k] < |s| && slots[k] < upTo && s[slots[k]].locale.Some?
          && 0 <= s[slots[k]].index < |at| && places[k] == at[s[slots[k]].index])
    && (forall j, k :: 0 <= j < k < |slots| ==> slots[j] < slots[k])
    && (forall i :: 0 <= i < upTo && i < |s| && s[i].locale.Some? ==> i in slots)
  }

  /** The live fields, each once, the most preferred first. */
  ghost predicate InOrderOfPreference(fields: seq<Field>, places: seq<int>) {
    && (forall k :: 0 <= k < |places| ==> Live(fields, places[k]))
    && (forall p :: Live(fields, p) ==> p in places)
    && (forall j, k :: 0 <= j < k < |places| ==> Preferred(fields, places[j], places[k]))
  }

  lemma AllChosen(fields: seq<Field>, at: seq<int>, s: seq<Entry>, slots: seq<int>, places: seq<int>)
    requires Ranked(fields, at, s) && Chosen(at, s, slots, places, |s|)
    ensures InOrderOfPreference(fields, places)
  {
    hide Live, Preferred;
    forall k | 0 <= k < |places| ensures Live(fields, places[k]) {
      assert StandsFor(fields, at, s[slots[k]], at[s[slots[k]].index]);
    }
    forall p | Live(fields, p) ensures p in places {
      var i :| 0 <= i < |s| && StandsFor(fields, at, s[i], p);
      var k :| 0 <= k < |slots| && slots[k] == i;
      assert places[k] == p;
    }
    forall j, k | 0 <= j < k < |places| ensures Preferred(fields, places[j], places[k]) {
      assert InPreference(fields, at, s[slots[j]], s[slots[k]]);
    }
  }

  lemma ChooseNext(at: seq<int>, s: seq<Entry>, slots: seq<int>, places: seq<int>, from: int, i: int)
    requires Chosen(at, s, slots, places, from) && 0 <= from <= i < |s| && s[i].locale.Some? && 0 <= s[i].index < |at|
    requires forall j :: from <= j < i ==> s[j].locale.None?
    ensures Chosen(at, s, slots + [i], places + [at[s[i].index]], i + 1)
  {
    var slots' := slots + [i];
    forall j | 0 <= j < i + 1 && s[j].locale.Some? ensures j in slots' {
      if j < from { assert j in slots; } else { assert slots'[|slots|] == i; }
    }
  }

  lemma ChooseNothing(at: seq<int>, s: seq<Entry>, slots: seq<int>, places: seq<int>, from: int)
    requires Chosen(at, s, slots, places, from) && 0 <= from <= |s|
    requires forall j :: from <= j < |s| ==> s[j].locale.None?
    ensures Chosen(at, s, slots, places, |s|)
  {
  }

  ghost predicate LocalesAt(fields: seq<Field>, places: seq<int>, locales: seq<string>) {
    && |locales| == |places|
    && forall k :: 0 <= k < |places| ==> 0 <= places[k] < |fields| && locales[k] == fields[places[k]].locale
  }

  lemma NextLocale(fields: seq<Field>, places: seq<int>, locales: seq<string>, p: int)
    requires LocalesAt(fields, places, locales) && 0 <= p < |fields|
    ensures LocalesAt(fields, places + [p], locales + [fields[p].locale])
  {
  }

  lemma NoLocales(fields: seq<Field>)
    ensures LocalesAt(fields, [], [])
  {
  }

  lemma NoneChosen(at: seq<int>, s: seq<Entry>)
    ensures Chosen(at, s, [], [], 0)
  {
  }

  lemma RankedAt(fields: seq<Field>, at: seq<int>, s: seq<Entry>, i: int)
    requires Ranked(fields, at, s) && 0 <= i < |s| && s[i].locale.Some?
    ensures 0 <= s[i].index < |at| && 0 <= at[s[i].index] < |fields|
    ensures fields[at[s[i].index]].locale == s[i].locale.value
  {
    assert StandsFor(fields, at, s[i], at[s[i].index]);
  }

  /** Goes through a sorted list. */
  method ReadRanked(s: seq<Entry>, length: int, ghost fields: seq<Field>, ghost at: seq<int>)
    returns (locales: seq<string>, ghost places: seq<int>)
    requires length == |s| - Removed(s) && Ranked(fields, at, s)
    ensures InOrderOfPreference(fields, places) && LocalesAt(fields, places, locales)
  {
    hide Chosen, Ranked, InOrderOfPreference, LocalesAt, Removed, PriorityList.Iterator.Valid;
    var it := new PriorityList.Iterator(s, length);
    locales, places := [], [];
    ghost var slots := [];
    NoneChosen(at, s);
    NoLocales(fields);
    var more := it.HasNext();
    while more
      invariant fresh(it) && it.Valid() && it.entries == s && Chosen(at, s, slots, places, it.index)
      invariant (more <==> PriorityList.AnyLeft(s, it.index)) && 0 <= it.index <= |s|
      invariant LocalesAt(fields, places, locales)
      decreases |s| - it.index
    {
      ghost var from := it.index;
      var locale := it.Next();
      ghost var i := it.index - 1;
      RankedAt(fields, at, s, i);
      ChooseNext(at, s, slots, places, from, i);
      NextLocale(fields, places, locales, at[s[i].index]);
      slots, places := slots + [i], places + [at[s[i].index]];
      locales := locales + [locale];
      more := it.HasNext();
    }
    ChooseNothing(at, s, slots, places, it.index);
    AllChosen(fields, at, s, slots, places);
  }

  /** The locales of the live fields, each once, the most preferred first. */
  ghost predicate RankedLocales(fields: seq<Field>, locales: seq<string>) {
    exists places :: InOrderOfPreference(fields, places) && LocalesAt(fields, places, locales)
  }

  /** The locales of a header's fields in the order of preference. */
  method Rank(fields: seq<Field>) returns (locales: seq<string>)
    requires AtMostOne(fields)
    ensures RankedLocales(fields, locales)
  {
    hide Ranked, InOrderOfPreference, LocalePriorityList.Valid;
    var list := new LocalePriorityList();
    var p := 0;
    while p < |fields|
      invariant 0 <= p <= |fields| && fresh(list) && fresh(list.list) && list.Valid() && list.fields == fields[..p]
    {
      var ok := list.Add(fields[p].locale, fields[p].weight, false);
      p := p + 1;
    }
    assert fields[..p] == fields;
    list.Sort(false);
    ghost var places;
    locales, places := ReadRanked(list.list[..list.listLength], list.GetLength(), fields, list.at);
  }
}
