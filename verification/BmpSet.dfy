/**
 Fast lookup tables for a frozen set of code points: bytes for Latin-1, one bit per code point
 below U+0800, zero/one/mixed bits per block of 64 code points in the BMP, and restricted binary
 searches in the set's inversion list.
 */
module BmpSet {
  import opened Basics
  import opened InversionList
  import opened Bits
  import opened Utf16
  import opened Utf8

  /** The code points of 64-block `b`. */
  ghost predicate UniformBlock(list: seq<int>, b: int, value: bool)
    requires ValidList(list)
  {
    forall c :: 64 * b <= c < 64 * b + 64 ==> (InSet(list, c) <==> value)
  }

  /** Blocks whose UTF-8 forms are ill-formed: below U+0800, and surrogates. */
  predicate IllegalBlock(b: int) {
    b < 0x20 || 0x360 <= b < 0x380
  }

  /** The two bits of block `b` tell its code points' membership, or that it is mixed. */
  ghost predicate BlockFits(list: seq<int>, table: seq<bv32>, b: int)
    requires ValidList(list) && |table| == 64 && 0 <= b < 0x400
  {
    if At(table, b + 0x400) then At(table, b) else UniformBlock(list, b, At(table, b))
  }

  ghost predicate BlockValid(list: seq<int>, table: seq<bv32>, containsFFFD: bool, b: int)
    requires ValidList(list) && |table| == 64 && 0 <= b < 0x400
  {
    if IllegalBlock(b) then !At(table, b + 0x400) && (At(table, b) <==> containsFFFD)
    else BlockFits(list, table, b)
  }

  class BMPSet {
    const list: seq<int>
    const latin1Contains: array<bool>
    const table7FF: array<bv32>
    const bmpBlockBits: array<bv32>
    const list4kStarts: array<int>
    var containsFFFD: bool

    ghost predicate Shape() {
      && ValidList(list)
      && latin1Contains.Length == 0x100 && table7FF.Length == 64 && bmpBlockBits.Length == 64
      && list4kStarts.Length == 0x12 && table7FF != bmpBlockBits
    }

    ghost predicate Valid()
      reads this, latin1Contains, table7FF, bmpBlockBits, list4kStarts
    {
      && Shape() && ValidStarts()
      && (containsFFFD <==> InSet(list, 0xfffd))
      && (forall c :: 0 <= c < 0x100 ==> (latin1Contains[c] <==> InSet(list, c)))
      && (forall c :: 0 <= c < 0x800 ==>
            (At(table7FF[..], c) <==> if c < 0x80 then containsFFFD else InSet(list, c)))
      && (forall b :: 0 <= b < 0x400 ==>
            BlockValid(list, bmpBlockBits[..], containsFFFD, b))
    }

    ghost predicate ValidStarts()
      reads list4kStarts
      requires Shape()
    {
      && list4kStarts[0] == Find(list, 0x800)
      && (forall i :: 1 <= i <= 0x10 ==> list4kStarts[i] == Find(list, i * 0x1000))
      && list4kStarts[0x11] == |list| - 1
    }

    /** Binary search restricted to the indexes lo..hi. */
    method FindCodePoint(c: int, lo: int, hi: int) returns (r: int)
      requires ValidList(list) && c < HIGH && 0 <= lo <= hi < |list|
      ensures r == if Find(list, c) < lo then lo else if Find(list, c) > hi then hi else Find(list, c)
    {
      if c < list[lo] { return lo; }
      if lo >= hi || c >= list[hi - 1] { return hi; }
      var lo, hi := lo, hi;
      while true
        invariant 0 <= lo < hi < |list| && list[lo] <= c < list[hi]
        decreases hi - lo
      {
        var i := (lo + hi) / 2;
        if i == lo {
          break;
        } else if c < list[i] {
          hi := i;
        } else {
          lo := i;
        }
      }
      FindBetween(list, c, hi);
      return hi;
    }

    method ContainsSlow(c: int, lo: int, hi: int) returns (r: bool)
      requires ValidList(list) && c < HIGH && 0 <= lo <= Find(list, c) <= hi < |list|
      ensures r <==> InSet(list, c)
    {
      var i := FindCodePoint(c, lo, hi);
      r := i % 2 == 1;
    }

    /** The search bounds that are cached for the 4k block of `c` enclose its index. */
    lemma StartsEnclose(c: int, lead: int)
      requires Shape() && ValidStarts() && 0 <= lead <= 0x10
      requires (if lead == 0 then 0x800 else lead * 0x1000) <= c
      requires if lead == 0x10 then c < HIGH else c < (lead + 1) * 0x1000
      ensures 0 <= list4kStarts[lead] <= Find(list, c) <= list4kStarts[lead + 1] < |list|
    {
      FindMonotone(list, if lead == 0 then 0x800 else lead * 0x1000, c);
      if lead < 0x10 { FindMonotone(list, c, (lead + 1) * 0x1000); }
    }

    /** What the two bits of the block of `c` say. */
    lemma BlockBits(c: int)
      requires Shape() && 0 <= c < 0x10000
      ensures var two := TwoBits(bmpBlockBits[c / 64 % 64], c / 0x1000);
              && (two <= 1 <==> !At(bmpBlockBits[..], c / 64 + 0x400))
              && (two <= 1 ==> (two == 1 <==> At(bmpBlockBits[..], c / 64)))
    {
      hide Bit, TwoBits;
      var b := c / 64;
      TwoBitsRead(bmpBlockBits[b % 64], c / 0x1000);
      assert (b + 0x400) % 64 == b % 64 && (b + 0x400) / 64 == b / 64 + 16;
      assert b / 64 == c / 0x1000;
    }

    /** The value that the block bits give for `c`: membership, or that of U+FFFD in the ill-formed ranges. */
    method ContainsBmp(c: int) returns (r: bool)
      requires Valid() && 0 <= c < 0x10000
      ensures r <==> InSet(list, if IllegalBlock(c / 64) then 0xfffd else c)
    {
      hide Bit, At, InSet, TwoBits;
      var lead := c / 0x1000;
      var twoBits := TwoBits(bmpBlockBits[c / 64 % 64], lead);
      BlockBits(c);
      assert BlockValid(list, bmpBlockBits[..], containsFFFD, c / 64);
      if twoBits <= 1 {
        r := twoBits == 1;
      } else {
        StartsEnclose(c, lead);
        r := ContainsSlow(c, list4kStarts[lead], list4kStarts[lead + 1]);
      }
    }

    /** Membership of any code point; values that are not code points are not contained. */
    method Contains(c: int) returns (r: bool)
      requires Valid()
      ensures r <==> 0 <= c <= 0x10ffff && InSet(list, c)
    {
      hide Bit;
      if 0 <= c <= 0xff {
        r := latin1Contains[c];
      } else if 0 <= c <= 0x7ff {
        assert At(table7FF[..], c) <==> InSet(list, c);
        r := Bit(table7FF[c % 64], c / 64);
      } else if 0 <= c < 0xd800 || 0xe000 <= c <= 0xffff {
        r := ContainsBmp(c);
      } else if 0 <= c <= 0x10ffff {
        FindMonotone(list, 0xd000, c);
        r := ContainsSlow(c, list4kStarts[0xd], list4kStarts[0x11]);
      } else {
        r := false;
      }
    }

    /** Reads the range of the list at index `i`; the end of the list stands for HIGH. */
    method NextRange(i: int) returns (start: int, limit: int, i': int)
      requires ValidList(list) && 0 <= i < |list| && i % 2 == 0
      ensures start == list[i] && start <= limit <= HIGH && (start == limit ==> start == HIGH)
      ensures 0 <= i' && (limit < HIGH ==> i' == i + 2 < |list| && list[i' - 1] == limit)
      ensures forall c :: start <= c < limit ==> InSet(list, c)
      ensures forall c :: c < start && (i > 0 ==> list[i - 1] <= c) ==> !InSet(list, c)
    {
      start, i' := list[i], i + 1;
      if i' < |list| {
        limit := list[i'];
        i' := i' + 1;
      } else {
        limit := HIGH;
      }
      forall c | start <= c < limit ensures InSet(list, c) { FindBetween(list, c, i + 1); }
      forall c | c < start && (i > 0 ==> list[i - 1] <= c) ensures !InSet(list, c) { FindBetween(list, c, i); }
    }

    method InitLatin1()
      requires Shape() && forall c :: 0 <= c < 0x100 ==> !latin1Contains[c]
      modifies latin1Contains
      ensures forall c :: 0 <= c < 0x100 ==> (latin1Contains[c] <==> InSet(list, c))
    {
      var i, limit := 0, 0;
      while limit <= 0x100
        invariant 0 <= i && 0 <= limit <= HIGH
        invariant limit < HIGH ==> i < |list| && i % 2 == 0 && (if i == 0 then limit == 0 else list[i - 1] == limit)
        invariant forall c :: 0 <= c < 0x100 ==> (latin1Contains[c] <==> c < limit && InSet(list, c))
        decreases HIGH - limit
      {
        ghost var done := limit;
        var start;
        start, limit, i := NextRange(i);
        if start >= 0x100 {
          break;
        }
        ghost var first := start;
        while start < limit && start < 0x100
          invariant first <= start <= limit && start <= 0x100
          invariant forall c :: 0 <= c < 0x100 ==> (latin1Contains[c] <==> c < start && InSet(list, c))
        {
          latin1Contains[start] := true;
          start := start + 1;
        }
      }
    }

    /**
     [start, limit) is (the rest of) one range of the list, `from` is not above it, and `i` is the index of the
     next.
     */
    ghost predicate AtRange(from: int, start: int, limit: int, i: int)
      requires Shape()
    {
      && from <= start <= limit <= HIGH && 0 <= i && (start == limit ==> start == HIGH)
      && (limit < HIGH ==> 0 < i < |list| && i % 2 == 0 && list[i - 1] == limit)
      && (forall c :: start <= c < limit ==> InSet(list, c))
      && (forall c :: from <= c < start ==> !InSet(list, c))
    }

    /** Finds the first range that reaches beyond ASCII. */
    method FirstBeyondAscii() returns (start: int, limit: int, i: int)
      requires Shape()
      ensures AtRange(0x80, start, limit, i)
    {
      i, limit := 0, 0;
      while true
        invariant 0 <= limit <= 0x80 && 0 <= i < |list| && i % 2 == 0
        invariant if i == 0 then limit == 0 else list[i - 1] == limit
        decreases |list| - i
      {
        start, limit, i := NextRange(i);
        if limit > 0x80 {
          if start < 0x80 {
            start := 0x80;
          }
          return;
        }
      }
    }

    method Init7FF() returns (start: int, limit: int, i: int)
      requires Shape() && forall f :: 0 <= f < 0x800 ==> !At(table7FF[..], f)
      modifies table7FF
      ensures forall c :: 0 <= c < 0x800 ==> (At(table7FF[..], c) <==> 0x80 <= c && InSet(list, c))
      ensures AtRange(0x800, start, limit, i)
    {
      hide At;
      start, limit, i := FirstBeyondAscii();
      ghost var from := 0x80;
      while start < 0x800
        invariant 0x80 <= from && AtRange(from, start, limit, i)
        invariant forall c :: 0 <= c < 0x800 ==> (At(table7FF[..], c) <==> 0x80 <= c < from && InSet(list, c))
        decreases HIGH - limit, HIGH - start
      {
        ghost var before := table7FF[..];
        Set32x64Bits(table7FF, start, if limit <= 0x800 then limit else 0x800);
        assert forall c :: 0 <= c < 0x800 ==>
          (At(table7FF[..], c) <==> At(before, c) || start <= c < (if limit <= 0x800 then limit else 0x800));
        if limit > 0x800 {
          start := 0x800;
          break;
        }
        from := limit;
        start, limit, i := NextRange(i);
      }
    }

    /** Block `b` is final if it is below position `done`, else still clear. */
    ghost predicate BlockState(table: seq<bv32>, done: int, b: int)
      requires Shape() && |table| == 64 && 0 <= b < 0x400
    {
      if 0x20 <= b && 64 * b < done then BlockFits(list, table, b)
      else !At(table, b) && !At(table, b + 0x400)
    }

    ghost predicate BlocksDone(table: seq<bv32>, done: int)
      requires Shape() && |table| == 64
    {
      && 0x800 <= done <= 0x10000 && done % 64 == 0
      && forall b :: 0 <= b < 0x400 ==> BlockState(table, done, b)
    }

    lemma SkipBlocks(table: seq<bv32>, done: int, done': int)
      requires Shape() && |table| == 64 && BlocksDone(table, done)
      requires done <= done' <= 0x10000 && done' % 64 == 0
      requires forall c :: done <= c < done' ==> !InSet(list, c)
      ensures BlocksDone(table, done')
    {
      hide At, InSet;
      forall b | 0 <= b < 0x400 ensures BlockState(table, done', b) {
        assert BlockState(table, done, b);
      }
    }

    lemma MixBlock(table: seq<bv32>, table': seq<bv32>, done: int)
      requires Shape() && |table| == |table'| == 64 && BlocksDone(table, done) && done < 0x10000
      requires forall f :: 0 <= f < 0x800 ==>
        (At(table', f) <==> At(table, f) || f == done / 64 || f == done / 64 + 0x400)
      ensures BlocksDone(table', done + 64)
    {
      hide At, InSet;
      var done' := done + 64;
      forall b | 0 <= b < 0x400 ensures BlockState(table', done', b) {
        assert BlockState(table, done, b);
      }
    }

    lemma FillBlocks(table: seq<bv32>, table': seq<bv32>, done: int, done': int)
      requires Shape() && |table| == |table'| == 64 && BlocksDone(table, done)
      requires done <= done' <= 0x10000 && done' % 64 == 0
      requires forall c :: done <= c < done' ==> InSet(list, c)
      requires forall f :: 0 <= f < 0x800 ==> (At(table', f) <==> At(table, f) || done / 64 <= f < done' / 64)
      ensures BlocksDone(table', done')
    {
      hide At, InSet;
      forall b | 0 <= b < 0x400 ensures BlockState(table', done', b) {
        assert BlockState(table, done, b);
      }
    }

    /** Enters one range of the set, from where it reaches beyond the blocks that are done. */
    method AddRange(start0: int, limit0: int, minStart0: int, ghost done0: int)
      returns (limit: int, minStart: int, ghost done: int)
      requires Shape() && BlocksDone(bmpBlockBits[..], done0)
      requires minStart0 <= done0 && done0 <= start0 < limit0 <= 0x10000
      requires forall c :: start0 <= c < limit0 ==> InSet(list, c)
      requires forall c :: done0 <= c < start0 ==> !InSet(list, c)
      modifies bmpBlockBits
      ensures BlocksDone(bmpBlockBits[..], done)
      ensures limit0 <= done && minStart <= done && (done == minStart || done == limit0)
      ensures limit0 <= limit <= done && (limit == 0x10000 || limit0 < 0x10000)
      ensures (limit == 0x10000 ==> done == 0x10000)
    {
      hide At, InSet, BlocksDone;
      var start;
      limit, minStart := limit0, minStart0;
      start, minStart, done := AddFirstBlock(start0, minStart0, done0);
      if start < limit {
        limit, minStart, done := AddOtherBlocks(start, limit, minStart, done);
      }
    }

    /** The block in which the range starts, if it does not start with the block. */
    method AddFirstBlock(start0: int, minStart0: int, ghost done0: int)
      returns (start: int, minStart: int, ghost done: int)
      requires Shape() && BlocksDone(bmpBlockBits[..], done0) && minStart0 <= done0 <= start0 < 0x10000
      requires InSet(list, start0) && forall c :: done0 <= c < start0 ==> !InSet(list, c)
      modifies bmpBlockBits
      ensures BlocksDone(bmpBlockBits[..], done) && 0 <= start0 <= start <= 0x10000 && start % 64 == 0
      ensures start == done && (minStart == start || (minStart == minStart0 && start == start0))
    {
      hide At, InSet;
      start, minStart, done := start0, minStart0, start0 / 64 * 64;
      SkipBlocks(bmpBlockBits[..], done0, done);
      if start % 64 != 0 {
        ghost var before := bmpBlockBits[..];
        start := start / 64;
        MarkMixed(bmpBlockBits, start);
        MixBlock(before, bmpBlockBits[..], done);
        start := (start + 1) * 64;
        minStart := start;
        done := start;
      }
    }

    /** The blocks that are full of the range, and the one in which it ends. */
    method AddOtherBlocks(start: int, limit0: int, minStart0: int, ghost done0: int)
      returns (limit: int, minStart: int, ghost done: int)
      requires Shape() && BlocksDone(bmpBlockBits[..], done0) && 0 <= start == done0 < limit0 <= 0x10000
      requires start % 64 == 0
      requires minStart0 <= done0 && forall c :: start <= c < limit0 ==> InSet(list, c)
      modifies bmpBlockBits
      ensures BlocksDone(bmpBlockBits[..], done)
      ensures limit0 <= done && minStart <= done && (done == minStart || done == limit0)
      ensures limit0 <= limit <= done && (limit == 0x10000 || limit0 < 0x10000)
      ensures (limit == 0x10000 ==> done == 0x10000)
    {
      hide At, InSet;
      limit, minStart := limit0, minStart0;
      ghost var before := bmpBlockBits[..];
      if start < limit / 64 * 64 {
        Set32x64Bits(bmpBlockBits, start / 64, limit / 64);
      }
      done := limit / 64 * 64;
      FillBlocks(before, bmpBlockBits[..], start, done);
      if limit % 64 != 0 {
        before := bmpBlockBits[..];
        limit := limit / 64;
        MarkMixed(bmpBlockBits, limit);
        MixBlock(before, bmpBlockBits[..], done);
        limit := (limit + 1) * 64;
        minStart := limit;
        done := limit;
      }
    }

    method InitBlocks(start0: int, limit0: int, i0: int)
      requires Shape() && AtRange(0x800, start0, limit0, i0)
      requires forall f :: 0 <= f < 0x800 ==> !At(bmpBlockBits[..], f)
      modifies bmpBlockBits
      ensures BlocksDone(bmpBlockBits[..], 0x10000)
    {
      hide At, InSet;
      var start, limit, i, minStart := start0, limit0, i0, 0x800;
      ghost var from, done := 0x800, 0x800;
      while start < 0x10000
        invariant AtRange(from, start, limit, i) && BlocksDone(bmpBlockBits[..], done)
        invariant minStart <= done && from <= done && (done == minStart || done == from)
        decreases HIGH - limit
      {
        ghost var end := limit;
        if limit > 0x10000 {
          limit := 0x10000;
        }
        if start < minStart {
          start := minStart;
        }
        if start < limit {
          limit, minStart, done := AddRange(start, limit, minStart, done);
        }
        if limit == 0x10000 {
          return;
        }
        from := end;
        start, limit, i := NextRange(i);
      }
      SkipBlocks(bmpBlockBits[..], done, 0x10000);
    }

    /**
     Gives ill-formed UTF-8 the value of U+FFFD: lead bytes C0 and C1, E0 with a low second byte, encoded
     surrogates.
     */
    method OverrideIllegal()
      requires Shape()
      modifies table7FF, bmpBlockBits
      ensures forall f :: 0 <= f < 0x800 ==>
        (At(table7FF[..], f) <==> old(At(table7FF[..], f)) || (containsFFFD && f < 0x80))
      ensures forall f :: 0 <= f < 0x800 ==>
        (At(bmpBlockBits[..], f) <==>
           if 0x360 <= f < 0x380 then containsFFFD
           else if 0x760 <= f < 0x780 then false
           else old(At(bmpBlockBits[..], f)) || (containsFFFD && f < 0x20))
    {
      hide At, Bit;
      forall k | 0 <= k < 32 ensures Bit(MixedMask(0xd), k) <==> k == 0xd || k == 0x1d { BitMixedMask(0xd, k); }
      if containsFFFD {
        forall k | 0 <= k < 32 ensures Bit(3, k) <==> k < 2 { BitThree(k); }
        OrRows(table7FF, 0, 64, 3);
        forall k | 0 <= k < 32 ensures Bit(1, k) <==> k == 0 { BitLow(k); }
        OrRows(bmpBlockBits, 0, 32, 1);
        ClearRows(bmpBlockBits, 32, 64, MixedMask(0xd));
        forall k | 0 <= k < 32 ensures Bit(One(0xd), k) <==> k == 0xd { BitOne(0xd, k); }
        OrRows(bmpBlockBits, 32, 64, One(0xd));
      } else {
        ClearRows(bmpBlockBits, 32, 64, MixedMask(0xd));
      }
    }

    method InitStarts()
      requires Shape()
      modifies list4kStarts
      ensures ValidStarts()
    {
      list4kStarts[0] := FindCodePoint(0x800, 0, |list| - 1);
      var i := 1;
      while i <= 0x10
        invariant 1 <= i <= 0x11 && list4kStarts[0] == Find(list, 0x800)
        invariant forall j :: 1 <= j < i ==> list4kStarts[j] == Find(list, j * 0x1000)
      {
        FindMonotone(list, if i == 1 then 0x800 else (i - 1) * 0x1000, i * 0x1000);
        list4kStarts[i] := FindCodePoint(i * 0x1000, list4kStarts[i - 1], |list| - 1);
        i := i + 1;
      }
      list4kStarts[0x11] := |list| - 1;
    }

    constructor (parentList: seq<int>)
      requires ValidList(parentList)
      ensures list == parentList && Valid()
      ensures fresh(latin1Contains) && fresh(table7FF) && fresh(bmpBlockBits) && fresh(list4kStarts)
    {
      list := parentList;
      latin1Contains := new bool[0x100](_ => false);
      table7FF := new bv32[64](_ => 0);
      bmpBlockBits := new bv32[64](_ => 0);
      list4kStarts := new int[0x12](_ => 0);
      containsFFFD := false;
      new;
      hide Bit;
      forall f | 0 <= f < 0x800 ensures !At(table7FF[..], f) && !At(bmpBlockBits[..], f) { BitZero(f / 64); }
      hide At, InSet;
      InitStarts();
      StartsEnclose(0xfffd, 0xf);
      containsFFFD := ContainsSlow(0xfffd, list4kStarts[0xf], list4kStarts[0x10]);
      InitBits();
      FinishTables();
    }

    /** Fills all tables from the inversion list. */
    method InitBits()
      requires Shape() && (forall c :: 0 <= c < 0x100 ==> !latin1Contains[c])
      requires forall f :: 0 <= f < 0x800 ==> !At(table7FF[..], f) && !At(bmpBlockBits[..], f)
      modifies latin1Contains, table7FF, bmpBlockBits
      ensures forall c :: 0 <= c < 0x100 ==> (latin1Contains[c] <==> InSet(list, c))
      ensures forall c :: 0 <= c < 0x800 ==> (At(table7FF[..], c) <==> 0x80 <= c && InSet(list, c))
      ensures BlocksDone(bmpBlockBits[..], 0x10000)
    {
      hide At, InSet;
      InitLatin1();
      var start, limit, i := Init7FF();
      InitBlocks(start, limit, i);
    }

    method FinishTables()
      requires Shape() && ValidStarts() && (containsFFFD <==> InSet(list, 0xfffd))
      requires forall c :: 0 <= c < 0x100 ==> (latin1Contains[c] <==> InSet(list, c))
      requires forall c :: 0 <= c < 0x800 ==> (At(table7FF[..], c) <==> 0x80 <= c && InSet(list, c))
      requires BlocksDone(bmpBlockBits[..], 0x10000)
      modifies table7FF, bmpBlockBits
      ensures Valid()
    {
      hide At, InSet;
      ghost var blocks := bmpBlockBits[..];
      OverrideIllegal();
      LegalBlocksKept(blocks, bmpBlockBits[..]);
    }

    lemma LegalBlocksKept(table: seq<bv32>, table': seq<bv32>)
      requires Shape() && |table| == |table'| == 64 && BlocksDone(table, 0x10000)
      requires forall f :: 0 <= f < 0x800 ==>
        (At(table', f) <==>
           if 0x360 <= f < 0x380 then containsFFFD
           else if 0x760 <= f < 0x780 then false
           else At(table, f) || (containsFFFD && f < 0x20))
      ensures forall b :: 0 <= b < 0x400 ==> BlockValid(list, table', containsFFFD, b)
    {
      hide At, InSet;
      forall b | 0 <= b < 0x400 ensures BlockValid(list, table', containsFFFD, b) {
        assert BlockState(table, 0x10000, b);
      }
    }

    /** Membership of a code unit that stands alone; single surrogates are looked up as code points. */
    method ContainsUnit(c: Unit16) returns (r: bool)
      requires Valid()
      ensures r <==> InSet(list, c)
    {
      hide Bit;
      if c <= 0xff {
        r := latin1Contains[c];
      } else if c <= 0x7ff {
        assert At(table7FF[..], c) <==> InSet(list, c);
        r := Bit(table7FF[c % 64], c / 64);
      } else if c < 0xd800 || c >= 0xe000 {
        r := ContainsBmp(c);
      } else {
        StartsEnclose(c, 0xd);
        r := ContainsSlow(c, list4kStarts[0xd], list4kStarts[0xe]);
      }
    }

    method ContainsPair(lead: Unit16, trail: Unit16) returns (r: bool)
      requires Valid() && IsLead(lead) && IsTrail(trail)
      ensures r <==> InSet(list, Supplementary(lead, trail))
    {
      var c := Supplementary(lead, trail);
      StartsEnclose(c, 0x10);
      r := ContainsSlow(c, list4kStarts[0x10], list4kStarts[0x11]);
    }

    /** Membership of the code point at `i`, and the index after it. */
    method ContainsNext(s: seq<Unit16>, i: int) returns (found: bool, next: int)
      requires Valid() && 0 <= i < |s| && Border(s, i)
      ensures found <==> InSet(list, CodePointAt(s, i))
      ensures next == if PairAt(s, i) then i + 2 else i + 1
    {
      hide InSet, Valid, Supplementary;
      var c := s[i];
      if c < 0xd800 || c >= 0xe000 || c >= 0xdc00 || i + 1 == |s| || s[i + 1] < 0xdc00 || s[i + 1] >= 0xe000 {
        found := ContainsUnit(c);
        next := i + 1;
      } else {
        found := ContainsPair(c, s[i + 1]);
        next := i + 2;
      }
    }

    /** Membership of the code point before `limit`, and its index. */
    method ContainsPrevious(s: seq<Unit16>, limit: int) returns (found: bool, prev: int)
      requires Valid() && 0 < limit <= |s| && Border(s, limit)
      ensures found <==> InSet(list, CodePointBefore(s, limit))
      ensures prev == if PairAt(s, limit - 2) then limit - 2 else limit - 1
    {
      hide InSet, Valid, Supplementary;
      prev := limit - 1;
      var c := s[prev];
      if c < 0xd800 || c >= 0xe000 || c < 0xdc00 || prev == 0 || s[prev - 1] < 0xd800 || s[prev - 1] >= 0xdc00 {
        found := ContainsUnit(c);
      } else {
        found := ContainsPair(s[prev - 1], c);
        prev := prev - 1;
      }
    }

    /** Spans the longest prefix whose code points are all contained, or all not contained. */
    method Span(s: seq<Unit16>, contained: bool) returns (r: int)
      requires Valid() && s != []
      ensures SpanUpTo(list, s, r, contained)
    {
      assert ValidList(list);
      hide InSet, Valid, CodePointAt;
      r := 0;
      while r < |s|
        invariant Border(s, r) && AllBefore(list, s, r, contained)
      {
        var found, next := ContainsNext(s, r);
        if found != contained { break; }
        SpanNext(list, s, r, contained);
        r := next;
      }
    }

    /** Spans the longest suffix whose code points are all contained, or all not contained. */
    method SpanBack(s: seq<Unit16>, contained: bool) returns (r: int)
      requires Valid() && s != []
      ensures SpanDownTo(list, s, r, contained)
    {
      assert ValidList(list);
      hide InSet, Valid, CodePointAt, CodePointBefore;
      r := |s|;
      while r > 0
        invariant 0 <= r <= |s| && Border(s, r)
        invariant forall i :: r <= i < |s| && Border(s, i) ==> (InSet(list, CodePointAt(s, i)) <==> contained)
      {
        BackwardSteps(s, r);
        var found, prev := ContainsPrevious(s, r);
        if found != contained { break; }
        r := prev;
      }
    }

    /** Every sequence that starts before `limit` can be read without running off the end, and ends by `limit`. */
    ghost predicate SafeBefore(s: seq<Byte>, limit: int)
    {
      && 0 <= limit <= |s|
      && (limit < |s| ==> s[limit] >= 0xc0 && AllIllFormed(s, limit, |s|))
      && (forall i :: 0 <= i < limit ==> SafeAt(s, i))
    }

    ghost predicate SafeAt(s: seq<Byte>, i: int)
      requires 0 <= i < |s|
    {
      && (s[i] >= 0xc0 ==> i + 1 < |s|)
      && (s[i] >= 0xe0 && i + 1 < |s| && IsTrail8(s[i + 1]) ==> i + 2 < |s|)
      && (s[i] >= 0xf0 && i + 2 < |s| && IsTrail8(s[i + 1]) && IsTrail8(s[i + 2]) ==> i + 3 < |s|)
    }

    lemma SafeTruncated(s: seq<Byte>, n: int)
      requires 1 <= n <= |s| && n <= 3
      requires s[|s| - n] >= (if n == 1 then 0xc0 else if n == 2 then 0xe0 else 0xf0)
      requires forall k :: |s| - n < k < |s| ==> IsTrail8(s[k])
      ensures SafeBefore(s, |s| - n)
    {
      var limit := |s| - n;
      assert Trails8(s, limit, n - 1);
      assert WellFormedLength(s, limit) == 0;
      TrailsIllFormed(s, limit, n - 1);
      hide WellFormedLength;
      forall i | 0 <= i < limit ensures SafeAt(s, i) {
        assert !IsTrail8(s[limit]);
      }
    }

    /** Cuts off a truncated sequence at the end, so that the span loop need not check for the end inside characters. */
    method CutTruncated(s: seq<Byte>, pos: int) returns (limit: int)
      requires 0 <= pos < |s|
      requires forall i :: 0 <= i < pos ==> s[i] < 0x80
      ensures pos <= limit <= |s| && SafeBefore(s, limit)
      ensures limit < |s| ==> AllIllFormed(s, limit, |s|)
    {
      hide WellFormedLength;
      limit := |s|;
      var length := |s| - pos;
      var b := s[|s| - 1];
      if b >= 0x80 {
        if b < 0xc0 {
          if length >= 2 { b := s[|s| - 2]; }
          if length >= 2 && b >= 0xe0 {
            limit := limit - 2;
            SafeTruncated(s, 2);
            return;
          }
          if length >= 3 && 0x80 <= b < 0xc0 && s[|s| - 3] >= 0xf0 {
            limit := limit - 3;
            SafeTruncated(s, 3);
            return;
          }
        } else {
          limit := limit - 1;
          SafeTruncated(s, 1);
          return;
        }
      }
    }

    /** Value of a three-byte sequence; ill-formed ones have the value of U+FFFD. */
    method ContainsThree(s: seq<Byte>, i: int) returns (r: bool)
      requires Valid() && 0 <= i && Trails8(s, i, 2) && 0xe0 <= s[i] < 0xf0
      ensures r <==> InSet(list, CharAt8(s, i))
    {
      hide InSet, At, Bit, Valid;
      var lead: int, t1: int, t2: int := s[i] - 0xe0, s[i + 1] - 0x80, s[i + 2] - 0x80;
      var c := lead * 0x1000 + t1 * 0x40 + t2;
      assert c == Value3(s, i);
      r := ContainsBmp(c);
    }

    /** Value of a two-byte sequence. */
    method ContainsTwo(s: seq<Byte>, i: int) returns (r: bool)
      requires Valid() && 0 <= i && Trails8(s, i, 1) && 0xc0 <= s[i] < 0xe0
      ensures r <==> InSet(list, CharAt8(s, i))
    {
      hide InSet, Bit;
      var lead: int, t1: int := s[i] - 0xc0, s[i + 1] - 0x80;
      assert lead * 0x40 + t1 == Value2(s, i);
      assert At(table7FF[..], lead * 0x40 + t1) == Bit(table7FF[t1], lead);
      r := Bit(table7FF[t1], lead);
    }

    /** Value of a four-byte sequence. */
    method ContainsFour(s: seq<Byte>, i: int) returns (r: bool)
      requires Valid() && 0 <= i && Trails8(s, i, 3) && 0xf0 <= s[i]
      ensures r <==> InSet(list, CharAt8(s, i))
    {
      hide InSet, At, CharAt8, Value4;
      FourBytes(s, i);
      var lead: int, t1: int, t2: int, t3: int := s[i] - 0xf0, s[i + 1] - 0x80, s[i + 2] - 0x80, s[i + 3] - 0x80;
      var c := lead * 0x40000 + t1 * 0x1000 + t2 * 0x40 + t3;
      if 0x10000 <= c <= 0x10ffff {
        StartsEnclose(c, 0x10);
        r := ContainsSlow(c, list4kStarts[0x10], list4kStarts[0x11]);
      } else {
        r := containsFFFD;
      }
    }

    /** One character that is not ASCII, or one byte of an ill-formed sequence: its value and the index after it. */
    method ContainsMultibyte(s: seq<Byte>, i: int, ghost limit: int) returns (r: bool, next: int)
      requires Valid() && SafeBefore(s, limit) && 0 <= i < limit && s[i] >= 0x80
      ensures r <==> InSet(list, CharAt8(s, i))
      ensures i < next <= limit && (WellFormedLength(s, i) > 0 ==> next == i + WellFormedLength(s, i))
      ensures WellFormedLength(s, i) == 0 ==> AllIllFormed(s, i, next)
    {
      hide InSet, Valid, At;
      assert SafeAt(s, i);
      var b := s[i];
      if b >= 0xe0 {
        if b < 0xf0 {
          if IsTrail8(s[i + 1]) && IsTrail8(s[i + 2]) {
            r := ContainsThree(s, i);
            next := i + 3;
            Consumed(s, i, 2, limit);
            return;
          }
        } else if IsTrail8(s[i + 1]) && IsTrail8(s[i + 2]) && IsTrail8(s[i + 3]) {
          r := ContainsFour(s, i);
          next := i + 4;
          Consumed(s, i, 3, limit);
          return;
        }
      } else if b >= 0xc0 && IsTrail8(s[i + 1]) {
        r := ContainsTwo(s, i);
        next := i + 2;
        Consumed(s, i, 1, limit);
        return;
      }
      r := ReadFFFD();
      next := i + 1;
    }

    method ReadFFFD() returns (r: bool)
      requires Valid()
      ensures r <==> InSet(list, 0xfffd)
    {
      r := containsFFFD;
    }

    lemma Consumed(s: seq<Byte>, i: int, n: nat, limit: int)
      requires SafeBefore(s, limit) && 0 <= i < limit && Trails8(s, i, n)
      ensures i + n < limit
      ensures WellFormedLength(s, i) == 0 ==> AllIllFormed(s, i, i + n + 1)
    {
      hide WellFormedLength;
      if WellFormedLength(s, i) == 0 { TrailsIllFormed(s, i, n); }
    }

    /**
     Spans ASCII characters from `i`; stops at the first one that does not match, at a byte that is not ASCII, or
     at the limit.
     */
    method SpanAscii(s: seq<Byte>, i0: int, limit: int, contained: bool) returns (i: int, stopped: bool)
      requires Valid() && 0 <= i0 < limit <= |s| && s[i0] < 0x80
      ensures i0 <= i <= limit && (stopped ==> i < limit) && (!stopped && i < limit ==> s[i] >= 0x80)
      ensures NaiveSpan(list, s, i0, contained) == if stopped then i else NaiveSpan(list, s, i, contained)
      ensures forall k :: i0 <= k < i ==> s[k] < 0x80
    {
      hide InSet;
      i := i0;
      while i < limit && s[i] < 0x80
        invariant i0 <= i <= limit && (forall k :: i0 <= k < i ==> s[k] < 0x80)
        invariant NaiveSpan(list, s, i0, contained) == NaiveSpan(list, s, i, contained)
      {
        SpanOneChar(list, s, i, 1, s[i], contained);
        if latin1Contains[s[i]] != contained { return i, true; }
        i := i + 1;
      }
      stopped := false;
    }

    /** One step of spanning over what is not ASCII. */
    lemma SpanStep(s: seq<Byte>, i: int, next: int, r: bool, contained: bool)
      requires ValidList(list) && 0 <= i < next <= |s| && (r <==> InSet(list, CharAt8(s, i)))
      requires WellFormedLength(s, i) > 0 ==> next == i + WellFormedLength(s, i)
      requires WellFormedLength(s, i) == 0 ==> AllIllFormed(s, i, next)
      ensures NaiveSpan(list, s, i, contained) == if r == contained then NaiveSpan(list, s, next, contained) else i
    {
      hide InSet, NaiveSpan, WellFormedLength, CharAt8;
      if WellFormedLength(s, i) > 0 {
        SpanOneChar(list, s, i, WellFormedLength(s, i), CharAt8(s, i), contained);
      } else {
        IllFormedChar(s, i);
        SpanIllFormed(list, s, i, next, contained);
      }
    }

    /**
     Spans the longest UTF-8 prefix whose characters are all contained, or all not contained.
     It stops exactly where decoding one character at a time stops.
     */
    method SpanUTF8(s: seq<Byte>, contained: bool) returns (r: int)
      requires Valid() && s != []
      ensures r == NaiveSpan(list, s, 0, contained)
    {
      assert ValidList(list);
      hide InSet, Valid, WellFormedLength, NaiveSpan, CharAt8, SafeBefore, AllIllFormed;
      var i, stopped := 0, false;
      if s[0] < 0x80 {
        i, stopped := SpanAscii(s, 0, |s|, contained);
        NaiveEnd(s, contained);
        if stopped || i == |s| { return i; }
      }
      var limit := CutTruncated(s, i);
      var fffd := ReadFFFD();
      var limit0 := |s|;
      if limit < |s| && fffd != contained {
        limit0 := limit;
      }
      NaiveEnd(s, contained);
      if limit < |s| { SpanIllFormed(list, s, limit, |s|, contained); }
      r := SpanFrom(s, i, limit, limit0, contained);
    }

    /** Spans from `i` on; reaching `limit` means a span up to `limit0`. */
    method SpanFrom(s: seq<Byte>, start: int, limit: int, limit0: int, contained: bool) returns (r: int)
      requires Valid() && 0 <= start <= limit <= |s| && SafeBefore(s, limit)
      requires NaiveSpan(list, s, limit, contained) == limit0
      ensures r == NaiveSpan(list, s, start, contained)
    {
      assert ValidList(list);
      hide InSet, Valid, WellFormedLength, NaiveSpan, CharAt8, SafeBefore, AllIllFormed;
      var i, stopped := start, false;
      while i < limit
        invariant start <= i <= limit
        invariant NaiveSpan(list, s, start, contained) == NaiveSpan(list, s, i, contained)
      {
        if s[i] < 0x80 {
          i, stopped := SpanAscii(s, i, limit, contained);
          if stopped { return i; }
          if i == limit { return limit0; }
        }
        var found, next := ContainsMultibyte(s, i, limit);
        SpanStep(s, i, next, found, contained);
        if found != contained { return i; }
        i := next;
      }
      return limit0;
    }

    lemma NaiveEnd(s: seq<Byte>, contained: bool)
      requires ValidList(list)
      ensures NaiveSpan(list, s, |s|, contained) == |s|
    {
    }
  }
}
