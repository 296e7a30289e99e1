/**
 Inversion lists: a set of code points as an ascending list of range borders.
 */
module InversionList {

  const HIGH := 0x110000

  ghost predicate ValidList(list: seq<int>) {
    && list != [] && 0 <= list[0] && list[|list| - 1] == HIGH
    && forall i, j :: 0 <= i < j < |list| ==> list[i] < list[j]
  }

  /** The smallest index whose border is above `c`. */
  ghost function Find(list: seq<int>, c: int): (i: int)
    requires ValidList(list) && c < HIGH
    ensures 0 <= i < |list| && c < list[i]
    ensures forall j :: 0 <= j < i ==> list[j] <= c
  {
    FindFrom(list, c, 0)
  }

  ghost function FindFrom(list: seq<int>, c: int, from: int): (i: int)
    requires ValidList(list) && c < HIGH && 0 <= from < |list|
    requires forall j :: 0 <= j < from ==> list[j] <= c
    ensures 0 <= i < |list| && c < list[i]
    ensures forall j :: 0 <= j < i ==> list[j] <= c
    decreases |list| - from
  {
    if c < list[from] then from else FindFrom(list, c, from + 1)
  }

  ghost predicate InSet(list: seq<int>, c: int)
    requires ValidList(list)
  {
    c < HIGH && Find(list, c) % 2 == 1
  }

  lemma FindUnique(list: seq<int>, c: int, i: int)
    requires ValidList(list) && 0 <= i < |list| && c < list[i]
    requires forall j :: 0 <= j < i ==> list[j] <= c
    ensures c < HIGH && Find(list, c) == i
  {
  }

  /** Between two neighbouring borders the index, and so membership, is constant. */
  lemma FindBetween(list: seq<int>, c: int, i: int)
    requires ValidList(list) && 0 <= i < |list| && c < list[i] && (i > 0 ==> list[i - 1] <= c)
    ensures c < HIGH && Find(list, c) == i
  {
    assert forall j :: 0 <= j < i ==> list[j] <= c;
    FindUnique(list, c, i);
  }

  lemma FindMonotone(list: seq<int>, c: int, d: int)
    requires ValidList(list) && c <= d < HIGH
    ensures Find(list, c) <= Find(list, d)
  {
    assert forall j :: 0 <= j < Find(list, c) ==> list[j] <= d;
  }

  /** Parity of the index is membership in one of the ranges [list[2k], list[2k+1]). */
  lemma InSetIffInRange(list: seq<int>, c: int)
    requires ValidList(list)
    ensures InSet(list, c) <==>
      exists k :: 0 <= k && 2 * k < |list| && list[2 * k] <= c < (if 2 * k + 1 < |list| then list[2 * k + 1] else HIGH)
  {
    if InSet(list, c) {
      var k := Find(list, c) / 2;
      assert list[2 * k] <= c < list[2 * k + 1];
    }
    if k :| 0 <= k && 2 * k < |list| && list[2 * k] <= c < (if 2 * k + 1 < |list| then list[2 * k + 1] else HIGH) {
      FindBetween(list, c, 2 * k + 1);
    }
  }
}
