/** Enumerating a trie and looking strings up in it agree. */
module TrieAgreement {
  import opened Basics
  import opened TrieFormat
  import opened TrieOrder
  import opened TrieLookup
  import TrieIterator

  /** Delivers all pairs of a trie, each once, in ascending order of the strings. */
  method Enumerate(bytes: seq<Byte>) returns (entries: seq<Entry>)
    requires NodeOk(bytes, 0) && NodeSorted(bytes, 0) && TrieIterator.KeysFit(Entries(bytes, 0))
    ensures entries == Entries(bytes, 0) && Ascending(entries)
  {
    EntriesAscending(bytes, 0);
    StartState(bytes);
    hide NodeOk, NodeSorted, Entries, TrieIterator.KeysFit, TrieIterator.Iterator.Valid, Residual, Ascending;
    var it := new TrieIterator.Iterator(bytes, 0, -1);
    entries := DeliverAll(it);
  }

  /** Delivers everything that is pending. */
  method DeliverAll(it: TrieIterator.Iterator) returns (entries: seq<Entry>)
    requires it.Valid()
    modifies it
    ensures entries == old(it.Pending())
  {
    hide TrieIterator.KeysFit, TrieIterator.Iterator.Shape, TrieIterator.Iterator.Based, TrieIterator.Iterator.Pending;
    entries := [];
    ghost var pending := it.Pending();
    var has := it.Next();
    while has
      invariant it.Valid() && pending == (if has then [Entry(it.str, it.value)] else []) + it.Pending()
      invariant entries + pending == old(it.Pending()) && (!has ==> pending == [])
      decreases |pending|
    {
      entries := entries + [Entry(it.str, it.value)];
      pending := it.Pending();
      has := it.Next();
    }
  }

  lemma StartState(bytes: seq<Byte>)
    requires NodeOk(bytes, 0)
    ensures StateOk(bytes, 0, -1) && Residual(bytes, 0, -1) == Entries(bytes, 0)
  {
    PrefixedNothing(Entries(bytes, 0));
  }

  /** Looks a string up byte by byte: it is found exactly if it is in the trie, with its value. */
  method Find(bytes: seq<Byte>, key: seq<Byte>) returns (found: bool, value: int)
    requires NodeOk(bytes, 0) && NodeSorted(bytes, 0)
    ensures found ==> Entry(key, value) in Entries(bytes, 0)
    ensures !found ==> forall v :: Entry(key, v) !in Entries(bytes, 0)
  {
    EntriesAscending(bytes, 0);
    forall v { LookupFindsValue(Entries(bytes, 0), key, v); }
    hide NodeOk, NodeSorted, Entries, DeriveAll, Ascending;
    found, value := false, 0;
    var trie := new BytesTrie(bytes);
    var r := MatchAll(trie, key);
    if r == FinalValue || r == IntermediateValue {
      value := trie.GetValue();
      found := true;
    }
  }

  /** Matches the bytes of a string. */
  method MatchAll(trie: BytesTrie, key: seq<Byte>) returns (r: TrieResult)
    requires trie.Valid()
    modifies trie
    ensures trie.Valid() && trie.Rest() == DeriveAll(old(trie.Rest()), key) && r == Report(trie.Rest())
  {
    hide Derive, Report, BytesTrie.Valid, BytesTrie.Rest;
    r := trie.Current();
    var k := 0;
    assert key[0..] == key;
    while k < |key|
      invariant trie.Valid() && 0 <= k <= |key| && r == Report(trie.Rest())
      invariant DeriveAll(trie.Rest(), key[k..]) == DeriveAll(old(trie.Rest()), key)
    {
      assert key[k..][1..] == key[k + 1..];
      r := trie.Next(key[k]);
      k := k + 1;
    }
  }

  /** Two pairs of a trie never have the same string. */
  lemma OneValue(bytes: seq<Byte>, key: seq<Byte>, v: int, v': int)
    requires NodeOk(bytes, 0) && NodeSorted(bytes, 0)
    requires Entry(key, v) in Entries(bytes, 0) && Entry(key, v') in Entries(bytes, 0)
    ensures v == v'
  {
    EntriesAscending(bytes, 0);
    hide NodeOk, NodeSorted, Entries, DeriveAll, Ascending;
    LookupFindsValue(Entries(bytes, 0), key, v);
    LookupFindsValue(Entries(bytes, 0), key, v');
  }
}
