/**
 Bit tables of 64 words in "vertical" organization: bit number f is bit f/64 of word f%64.
 */
module Bits {

  function One(k: nat): bv32
    requires k < 32
  {
    1 << k
  }

  function And(x: bv32, y: bv32): bv32 { x & y }

  function Or(x: bv32, y: bv32): bv32 { x | y }

  function Not(x: bv32): bv32 { !x }

  function Dec(x: bv32): bv32 { x - 1 }

  predicate Masked(x: bv32, m: bv32) { And(x, m) != 0 }

  /** Exactly one bit is set. */
  predicate Single(m: bv32) { m != 0 && m & (m - 1) == 0 }

  predicate Bit(x: bv32, k: nat)
    requires k < 32
  {
    Masked(x, One(k))
  }

  /** Bit number `f` of a table. */
  predicate At(table: seq<bv32>, f: nat)
    requires |table| == 64 && f < 0x800
  {
    Bit(table[f % 64], f / 64)
  }

  // ----- words: each fact about machine operations on its own

  lemma OrZero(a: bv32, b: bv32)
    ensures a | b == 0 <==> a == 0 && b == 0
  {
  }

  lemma OrDistributes(x: bv32, y: bv32, m: bv32)
    ensures (x | y) & m == (x & m) | (y & m)
  {
  }

  lemma AndDistributes(x: bv32, y: bv32, m: bv32)
    ensures (x & y) & m == (x & m) & (y & m)
  {
  }

  lemma SingleAll(x: bv32, m: bv32)
    requires Single(m)
    ensures x & m == 0 || x & m == m
  {
  }

  lemma SingleNot(x: bv32, m: bv32)
    requires Single(m)
    ensures !x & m != 0 <==> x & m == 0
  {
  }

  lemma SingleMeet(m: bv32, n: bv32)
    requires Single(m) && Single(n)
    ensures m & n != 0 <==> m == n
  {
  }

  lemma SingleBelow(m: bv32, n: bv32)
    requires Single(m) && Single(n)
    ensures (m - 1) & n != 0 <==> n < m
  {
  }

  lemma MaskedParts(x: bv32, y: bv32, m: bv32)
    ensures And(Or(x, y), m) == Or(And(x, m), And(y, m))
  {
    OrDistributes(x, y, m);
  }

  lemma OrIsZero(a: bv32, b: bv32)
    ensures Or(a, b) == 0 <==> a == 0 && b == 0
  {
    OrZero(a, b);
  }

  lemma MaskOr(x: bv32, y: bv32, m: bv32)
    ensures Masked(Or(x, y), m) <==> Masked(x, m) || Masked(y, m)
  {
    hide And, Or;
    MaskedParts(x, y, m);
    OrIsZero(And(x, m), And(y, m));
  }

  lemma AndParts(x: bv32, y: bv32, m: bv32)
    ensures And(And(x, y), m) == And(And(x, m), And(y, m))
  {
    AndDistributes(x, y, m);
  }

  lemma AndSingle(x: bv32, m: bv32)
    requires Single(m)
    ensures And(x, m) == 0 || And(x, m) == m
  {
    SingleAll(x, m);
  }

  lemma AndSelf(m: bv32)
    ensures And(m, m) == m && And(0, m) == 0 && And(m, 0) == 0
  {
  }

  lemma MaskAnd(x: bv32, y: bv32, m: bv32)
    requires Single(m)
    ensures Masked(And(x, y), m) <==> Masked(x, m) && Masked(y, m)
  {
    hide And, Single;
    AndParts(x, y, m);
    AndSingle(x, m);
    AndSingle(y, m);
    AndSelf(m);
    AndSelf(0);
  }

  lemma MaskNot(x: bv32, m: bv32)
    requires Single(m)
    ensures Masked(Not(x), m) <==> !Masked(x, m)
  {
    SingleNot(x, m);
  }

  lemma MaskBelow(m: bv32, n: bv32)
    requires Single(m) && Single(n)
    ensures Masked(Dec(m), n) <==> Less(n, m)
  {
    SingleBelow(m, n);
  }

  lemma OneIsSingle(k: nat)
    requires k < 32
    ensures Single(One(k))
  {
  }

  predicate Less(a: bv32, b: bv32) { a < b }

  lemma NotLess(a: bv32)
    ensures !Less(a, a)
  {
  }

  lemma AndOfSingles(m: bv32, n: bv32)
    requires Single(m) && Single(n)
    ensures And(m, n) != 0 <==> m == n
  {
    SingleMeet(m, n);
  }

  lemma LessTransitive(a: bv32, b: bv32, c: bv32)
    requires Less(a, b) && Less(b, c)
    ensures Less(a, c)
  {
  }

  lemma OneStep(k: nat)
    requires k < 31
    ensures Less(One(k), One(k + 1))
  {
  }

  lemma {:induction false} OneAscending(k: nat, j: nat)
    requires k < j < 32
    ensures Less(One(k), One(j))
  {
    hide One, Less;
    OneStep(j - 1);
    if k < j - 1 {
      OneAscending(k, j - 1);
      LessTransitive(One(k), One(j - 1), One(j));
    }
  }

  lemma OneOrder(j: nat, k: nat)
    requires j < 32 && k < 32
    ensures Less(One(k), One(j)) <==> k < j
  {
    if k < j { OneAscending(k, j); }
    if j < k { OneAscending(j, k); }
    hide One;
  }

  // ----- bits

  lemma BitOr(x: bv32, y: bv32, k: nat)
    requires k < 32
    ensures Bit(Or(x, y), k) <==> Bit(x, k) || Bit(y, k)
  {
    hide One, Or, Masked;
    MaskOr(x, y, One(k));
  }

  lemma BitAnd(x: bv32, y: bv32, k: nat)
    requires k < 32
    ensures Bit(And(x, y), k) <==> Bit(x, k) && Bit(y, k)
  {
    hide One, And, Masked, Single;
    OneIsSingle(k);
    MaskAnd(x, y, One(k));
  }

  lemma BitNot(x: bv32, k: nat)
    requires k < 32
    ensures Bit(Not(x), k) <==> !Bit(x, k)
  {
    hide One, Not, Masked, Single;
    OneIsSingle(k);
    MaskNot(x, One(k));
  }

  lemma BitOne(j: nat, k: nat)
    requires j < 32 && k < 32
    ensures Bit(One(j), k) <==> j == k
  {
    hide One, And, Single;
    OneIsSingle(j);
    OneIsSingle(k);
    AndOfSingles(One(j), One(k));
    OneOrder(j, k);
    OneOrder(k, j);
    NotLess(One(j));
  }

  lemma BitBelow(j: nat, k: nat)
    requires j < 32 && k < 32
    ensures Bit(Dec(One(j)), k) <==> k < j
  {
    hide One, Dec, Masked, Single;
    OneIsSingle(j);
    OneIsSingle(k);
    MaskBelow(One(j), One(k));
    OneOrder(j, k);
  }

  lemma BitZero(k: nat)
    requires k < 32
    ensures !Bit(0, k)
  {
  }

  lemma BitLow(k: nat)
    requires k < 32
    ensures Bit(1, k) <==> k == 0
  {
    assert One(0) == 1;
    hide One, Masked;
    BitOne(0, k);
  }

  lemma BitThree(k: nat)
    requires k < 32
    ensures Bit(3, k) <==> k < 2
  {
    assert Or(One(0), One(1)) == 3;
    hide One, Masked, Or;
    BitOr(One(0), One(1), k);
    BitOne(0, k);
    BitOne(1, k);
  }

  /** The bits from `lo` up to, but not including, `hi`. */
  function ColumnMask(lo: nat, hi: nat): bv32
    requires lo < 32 && hi <= 32
  {
    if hi < 32 then And(Not(Dec(One(lo))), Dec(One(hi))) else Not(Dec(One(lo)))
  }

  lemma BitColumnMask(lo: nat, hi: nat, k: nat)
    requires lo < 32 && hi <= 32 && k < 32
    ensures Bit(ColumnMask(lo, hi), k) <==> lo <= k < hi
  {
    hide One, Bit, And, Not, Dec;
    BitBelow(lo, k);
    BitNot(Dec(One(lo)), k);
    if hi < 32 {
      BitBelow(hi, k);
      BitAnd(Not(Dec(One(lo))), Dec(One(hi)), k);
    }
  }

  lemma OrRowsAt(before: seq<bv32>, after: seq<bv32>, lo: nat, hi: nat, bits: bv32, f: nat)
    requires |before| == |after| == 64 && lo <= hi <= 64 && f < 0x800
    requires forall t :: 0 <= t < 64 ==> after[t] == (if lo <= t < hi then Or(before[t], bits) else before[t])
    ensures At(after, f) <==> At(before, f) || (lo <= f % 64 < hi && Bit(bits, f / 64))
  {
    hide One, Or, Bit;
    BitOr(before[f % 64], bits, f / 64);
  }

  method OrRows(table: array<bv32>, lo: nat, hi: nat, bits: bv32)
    requires table.Length == 64 && lo <= hi <= 64
    modifies table
    ensures forall f :: 0 <= f < 0x800 ==>
      (At(table[..], f) <==> old(At(table[..], f)) || (lo <= f % 64 < hi && Bit(bits, f / 64)))
  {
    hide One, Or, At, Bit;
    var trail := lo;
    while trail < hi
      invariant lo <= trail <= hi
      invariant forall t :: 0 <= t < 64 ==>
        table[t] == (if lo <= t < trail then Or(old(table[t]), bits) else old(table[t]))
    {
      table[trail] := Or(table[trail], bits);
      trail := trail + 1;
    }
    forall f | 0 <= f < 0x800
      ensures At(table[..], f) <==> old(At(table[..], f)) || (lo <= f % 64 < hi && Bit(bits, f / 64))
    {
      OrRowsAt(old(table[..]), table[..], lo, hi, bits, f);
    }
  }

  /** A range within one column, which may end at the top of it. */
  lemma InOneColumn(start: nat, limit: nat)
    requires start < limit && (start / 64 == limit / 64 || start + 1 == limit)
    ensures forall f: int :: 0 <= f ==>
              (start <= f < limit <==>
                 f / 64 == start / 64 && start % 64 <= f % 64 < start % 64 + (limit - start))
  {
  }

  /** A range over several columns: the end of the first, all of those between, and the beginning of the last. */
  lemma InColumns(start: nat, limit: nat)
    requires start / 64 < limit / 64
    ensures forall f: int :: 0 <= f ==>
              (start <= f < limit <==>
                 || (f / 64 == start / 64 && start % 64 <= f % 64)
                 || start / 64 < f / 64 < limit / 64
                 || (f / 64 == limit / 64 && f % 64 < limit % 64))
  {
  }

  /** Sets the bits numbered start..limit-1. */
  method Set32x64Bits(table: array<bv32>, start: nat, limit: nat)
    requires table.Length == 64 && start < limit <= 0x800
    modifies table
    ensures forall f :: 0 <= f < 0x800 ==> (At(table[..], f) <==> old(At(table[..], f)) || start <= f < limit)
  {
    hide One, ColumnMask, Bit, At;
    var lead, trail := start / 64, start % 64;
    var limitLead, limitTrail := limit / 64, limit % 64;
    var bits := One(lead);
    forall k | 0 <= k < 32 ensures Bit(bits, k) <==> k == lead { BitOne(lead, k); }
    if start + 1 == limit {
      OrRows(table, trail, trail + 1, bits);
      InOneColumn(start, limit);
      return;
    }
    if lead == limitLead {
      OrRows(table, trail, limitTrail, bits);
      InOneColumn(start, limit);
    } else {
      InColumns(start, limit);
      if trail > 0 {
        OrRows(table, trail, 64, bits);
        lead := lead + 1;
      }
      if lead < limitLead {
        forall k | 0 <= k < 32 ensures Bit(ColumnMask(lead, limitLead), k) <==> lead <= k < limitLead {
          BitColumnMask(lead, limitLead, k);
        }
        OrRows(table, 0, 64, ColumnMask(lead, limitLead));
      }
      bits := One(if limitLead == 0x20 then limitLead - 1 else limitLead);
      forall k | 0 <= k < 32 && limitLead < 32 ensures Bit(bits, k) <==> k == limitLead { BitOne(limitLead, k); }
      OrRows(table, 0, limitTrail, bits);
    }
  }

  /** Two bits sixteen apart, read with one shift and one mask. */
  function TwoBits(x: bv32, lead: nat): bv32
    requires lead < 16
  {
    (x >> lead) & 0x10001
  }

  predicate ReadsTwo(x: bv32, lead: nat)
    requires lead < 16
  {
    && (TwoBits(x, lead) <= 1 <==> !Bit(x, lead + 16))
    && (!Bit(x, lead + 16) ==> (TwoBits(x, lead) == 1 <==> Bit(x, lead)))
  }

  lemma ReadsTwoFrom0(x: bv32)
    ensures ReadsTwo(x, 0) && ReadsTwo(x, 1) && ReadsTwo(x, 2) && ReadsTwo(x, 3)
  {
  }

  lemma ReadsTwoFrom4(x: bv32)
    ensures ReadsTwo(x, 4) && ReadsTwo(x, 5) && ReadsTwo(x, 6) && ReadsTwo(x, 7)
  {
  }

  lemma ReadsTwoFrom8(x: bv32)
    ensures ReadsTwo(x, 8) && ReadsTwo(x, 9) && ReadsTwo(x, 10) && ReadsTwo(x, 11)
  {
  }

  lemma ReadsTwoFrom12(x: bv32)
    ensures ReadsTwo(x, 12) && ReadsTwo(x, 13) && ReadsTwo(x, 14) && ReadsTwo(x, 15)
  {
  }

  /** The two bits tell whether the upper bit is set, and if it is not, whether the lower one is. */
  lemma TwoBitsRead(x: bv32, lead: nat)
    requires lead < 16
    ensures TwoBits(x, lead) <= 1 <==> !Bit(x, lead + 16)
    ensures !Bit(x, lead + 16) ==> (TwoBits(x, lead) == 1 <==> Bit(x, lead))
  {
    hide TwoBits, Bit;
    ReadsTwoFrom0(x);
    ReadsTwoFrom4(x);
    ReadsTwoFrom8(x);
    ReadsTwoFrom12(x);
    assert ReadsTwo(x, lead);
  }

  function AndNot(x: bv32, m: bv32): bv32 { And(x, Not(m)) }

  lemma BitAndNot(x: bv32, m: bv32, k: nat)
    requires k < 32
    ensures Bit(AndNot(x, m), k) <==> Bit(x, k) && !Bit(m, k)
  {
    hide One, Bit, And, Not;
    BitNot(m, k);
    BitAnd(x, Not(m), k);
  }

  /** Clears the bits `m` in the words lo..hi-1. */
  method ClearRows(table: array<bv32>, lo: nat, hi: nat, m: bv32)
    requires table.Length == 64 && lo <= hi <= 64
    modifies table
    ensures forall f :: 0 <= f < 0x800 ==>
      (At(table[..], f) <==> old(At(table[..], f)) && !(lo <= f % 64 < hi && Bit(m, f / 64)))
  {
    hide One, AndNot, Bit;
    var i := lo;
    while i < hi
      invariant lo <= i <= hi
      invariant forall t :: 0 <= t < 64 ==>
        table[t] == (if lo <= t < i then AndNot(old(table[t]), m) else old(table[t]))
    {
      table[i] := AndNot(table[i], m);
      i := i + 1;
    }
    forall f | 0 <= f < 0x800
      ensures At(table[..], f) <==> old(At(table[..], f)) && !(lo <= f % 64 < hi && Bit(m, f / 64))
    {
      BitAndNot(old(table[f % 64]), m, f / 64);
    }
  }

  /** The bits of 0x10001 shifted left by `lead`: those of a mixed block. */
  function MixedMask(lead: nat): bv32
    requires lead < 16
  {
    Or(One(lead), One(lead + 16))
  }

  lemma BitMixedMask(lead: nat, k: nat)
    requires lead < 16 && k < 32
    ensures Bit(MixedMask(lead), k) <==> k == lead || k == lead + 16
  {
    hide One, Or, Bit;
    BitOr(One(lead), One(lead + 16), k);
    BitOne(lead, k);
    BitOne(lead + 16, k);
  }

  /** Marks block `b` as mixed. */
  method MarkMixed(table: array<bv32>, b: nat)
    requires table.Length == 64 && b < 0x400
    modifies table
    ensures forall f :: 0 <= f < 0x800 ==> (At(table[..], f) <==> old(At(table[..], f)) || f == b || f == b + 0x400)
  {
    hide Bit, MixedMask;
    ghost var m := MixedMask(b / 64);
    OrRows(table, b % 64, b % 64 + 1, MixedMask(b / 64));
    forall k | 0 <= k < 32 ensures Bit(m, k) <==> k == b / 64 || k == b / 64 + 16 { BitMixedMask(b / 64, k); }
    assert forall f :: 0 <= f < 0x800 && f % 64 == b % 64 && (f / 64 == b / 64 || f / 64 == b / 64 + 16) ==>
        f == b || f == b + 0x400;
  }
}
