/**
 Writing records: how each way of extending the unit sequence changes the spans it denotes.
 */
module Encoding {
  import opened Basics
  import opened Spans
  import opened Units

  function Unchanged(n: nat): Span { Span(false, n, n) }

  /** Adding `n` unchanged text units; adding none changes nothing. */
  function PushUnchanged(ss: seq<Span>, n: nat): seq<Span> {
    if n == 0 then ss else Push(ss, Unchanged(n), false)
  }

  lemma PushUnchangedPieces(ss: seq<Span>, n: nat, m: nat)
    requires n > 0
    ensures PushUnchanged(PushUnchanged(ss, n), m) == PushUnchanged(ss, n + m)
  {
    PushPieces(ss, n, m);
  }

  // ----- long records

  function LengthField(n: nat): (f: nat)
    requires n <= INT32_MAX
    ensures f < 64
  {
    if n < LENGTH_IN_1TRAIL then n
    else if n <= 0x7fff then LENGTH_IN_1TRAIL
    else LENGTH_IN_2TRAIL + n / 0x4000_0000
  }

  function LengthTrail(n: nat): seq<Unit> {
    if n < LENGTH_IN_1TRAIL then []
    else if n <= 0x7fff then [0x8000 + n]
    else [0x8000 + n / 0x8000 % 0x8000, 0x8000 + n % 0x8000]
  }

  function LongHead(oldLength: nat, newLength: nat): (u: Unit)
    requires oldLength <= INT32_MAX && newLength <= INT32_MAX
    ensures MAX_SHORT_CHANGE < u <= 0x7fff
    ensures OldField(u) == LengthField(oldLength) && NewField(u) == LengthField(newLength)
  {
    0x7000 + LengthField(oldLength) * 64 + LengthField(newLength)
  }

  function LongRec(oldLength: nat, newLength: nat): seq<Unit>
    requires oldLength <= INT32_MAX && newLength <= INT32_MAX
  {
    [LongHead(oldLength, newLength)] + LengthTrail(oldLength) + LengthTrail(newLength)
  }

  lemma ReplaceHead(p: seq<Unit>, a: seq<Unit>, b: seq<Unit>, head: Unit)
    requires p != []
    ensures (p + a + b)[|p| - 1 := head] == p[..|p| - 1] + ([head] + a + b)
  {
  }

  /** A length survives being split over a head field and trail units. */
  lemma LengthRoundTrip(n: nat, more: seq<Unit>)
    requires n <= INT32_MAX
    ensures |LengthTrail(n)| == Trails(LengthField(n))
    ensures LengthOf(LengthField(n), LengthTrail(n) + more) == n
  {
    if n > 0x7fff {
      assert n == n / 0x4000_0000 * 0x4000_0000 + n / 0x8000 % 0x8000 * 0x8000 + n % 0x8000;
      assert Low15(LengthTrail(n)[0]) == n / 0x8000 % 0x8000;
      assert Low15(LengthTrail(n)[1]) == n % 0x8000;
    }
  }

  lemma LongRecDecodes(oldLength: nat, newLength: nat)
    requires oldLength <= INT32_MAX && newLength <= INT32_MAX
    ensures IsRec(LongRec(oldLength, newLength))
    ensures RecSpans(LongRec(oldLength, newLength)) == [Span(true, oldLength, newLength)]
  {
    var r, a, b := LongRec(oldLength, newLength), LengthTrail(oldLength), LengthTrail(newLength);
    LengthRoundTrip(oldLength, b);
    LengthRoundTrip(newLength, []);
    assert b + [] == b;
    assert r[1..] == a + b;
    assert r[1 + |a|..] == b;
    hide LongHead, LengthField, OldField, NewField, LengthOf, LengthTrail;
    assert forall k :: 1 <= k < |r| ==> r[k] >= 0x8000 by { TrailUnits(oldLength); TrailUnits(newLength); }
  }

  lemma TrailUnits(n: nat)
    ensures forall k :: 0 <= k < |LengthTrail(n)| ==> LengthTrail(n)[k] >= 0x8000
  {
  }

  // ----- appending a record, and enlarging the last one

  lemma AppendRec(c: seq<Unit>, r: seq<Unit>)
    requires WellFormed(c) && IsRec(r)
    ensures WellFormed(c + r)
    ensures SpansOf(c + r, false) == PushAll(SpansOf(c, false), RecSpans(r), false)
  {
    hide WellFormed, RecSpans, Push, IsRec;
    RawSnoc(c, r);
    PushAllAppend([], Raw(c), RecSpans(r), false);
  }

  lemma PushAllOne(ss: seq<Span>, s: Span)
    ensures PushAll(ss, [s], false) == Push(ss, s, false)
  {
    hide Push;
    assert [s][..0] == [];
  }

  lemma AppendOne(c: seq<Unit>, r: seq<Unit>, s: Span)
    requires WellFormed(c) && IsRec(r) && RecSpans(r) == [s]
    ensures WellFormed(c + r)
    ensures SpansOf(c + r, false) == Push(SpansOf(c, false), s, false)
  {
    AppendRec(c, r);
    PushAllOne(SpansOf(c, false), s);
  }

  lemma AppendUnchangedUnit(c: seq<Unit>, n: nat)
    requires WellFormed(c) && 1 <= n <= MAX_UNCHANGED_LENGTH
    ensures WellFormed(c + [n - 1])
    ensures SpansOf(c + [n - 1], false) == Push(SpansOf(c, false), Unchanged(n), false)
  {
    var r: seq<Unit> := [n - 1];
    assert IsRec(r) && RecSpans(r) == [Unchanged(n)];
    AppendOne(c, r, Unchanged(n));
  }

  /** The last unit of a log that is no trail unit and no long head is a record of its own. */
  lemma LastUnitRec(c: seq<Unit>)
    requires c != [] && WellFormed(c) && c[|c| - 1] <= MAX_SHORT_CHANGE
    ensures WellFormed(c[..|c| - 1]) && IsRec([c[|c| - 1]])
  {
    var h := LastRec(c);
    assert c[h..][|c| - 1 - h] == c[|c| - 1];
    assert h == |c| - 1;
    assert c[h..] == [c[|c| - 1]];
  }

  lemma BumpUnchangedUnit(c: seq<Unit>, k: nat)
    requires c != [] && WellFormed(c) && c[|c| - 1] + k <= MAX_UNCHANGED
    ensures WellFormed(c[|c| - 1 := c[|c| - 1] + k])
    ensures SpansOf(c[|c| - 1 := c[|c| - 1] + k], false) == PushUnchanged(SpansOf(c, false), k)
  {
    hide WellFormed, SpansOf, IsRec, RecSpans, Push;
    var front: seq<Unit>, last: Unit := c[..|c| - 1], c[|c| - 1];
    LastUnitRec(c);
    AppendUnchangedUnit(front, last + 1);
    AppendUnchangedUnit(front, last + k + 1);
    assert front + [last] == c;
    assert front + [last + k] == c[|c| - 1 := last + k];
    PushPieces(SpansOf(front, false), last + 1, k);
  }

  predicate ShortLengths(oldLength: nat, newLength: nat) {
    0 < oldLength <= MAX_SHORT_CHANGE_OLD_LENGTH && newLength <= MAX_SHORT_CHANGE_NEW_LENGTH
  }

  function ShortHead(oldLength: nat, newLength: nat): (u: Unit)
    requires ShortLengths(oldLength, newLength)
    ensures IsShort(u) && ShortNum(u) == 1 && ShortSpan(u) == Span(true, oldLength, newLength)
  {
    oldLength * 4096 + newLength * 512
  }

  lemma AppendShortUnit(c: seq<Unit>, oldLength: nat, newLength: nat)
    requires WellFormed(c) && ShortLengths(oldLength, newLength)
    ensures WellFormed(c + [ShortHead(oldLength, newLength)])
    ensures SpansOf(c + [ShortHead(oldLength, newLength)], false)
         == Push(SpansOf(c, false), Span(true, oldLength, newLength), false)
  {
    var r: seq<Unit> := [ShortHead(oldLength, newLength)];
    assert RecSpans(r) == [Span(true, oldLength, newLength)];
    AppendOne(c, r, Span(true, oldLength, newLength));
  }

  lemma ShortRecGrows(u: Unit)
    requires IsShort(u) && u % 512 < SHORT_CHANGE_NUM_MASK
    ensures IsRec([u]) && IsRec([u + 1])
    ensures RecSpans([u + 1]) == RecSpans([u]) + [ShortSpan(u)]
  {
    ShortUnitGrows(u);
    hide ShortNum, ShortSpan;
    assert Repeat(ShortSpan(u), ShortNum(u) + 1) == Repeat(ShortSpan(u), ShortNum(u)) + [ShortSpan(u)];
  }

  lemma UnitDigits(u: int, q: int, r: int)
    requires 0 <= q && 0 <= r < 512 && u == 512 * q + r
    ensures u / 512 == q && u % 512 == r && u / 4096 == q / 8
  {
    var h, l := q / 8, q % 8;
    assert u == 4096 * h + (512 * l + r);
  }

  lemma ShortUnitGrows(u: Unit)
    requires IsShort(u) && u % 512 < SHORT_CHANGE_NUM_MASK
    ensures IsShort(u + 1) && ShortNum(u + 1) == ShortNum(u) + 1 && ShortSpan(u + 1) == ShortSpan(u)
  {
    var q, r := u / 512, u % 512;
    UnitDigits(u, q, r);
    UnitDigits(u + 1, q, r + 1);
  }

  lemma ShortUnitSpan(u: Unit, oldLength: nat, newLength: nat)
    requires ShortLengths(oldLength, newLength) && u - u % 512 == ShortHead(oldLength, newLength)
    ensures ShortSpan(u) == Span(true, oldLength, newLength)
  {
  }

  /** A last record with one more span. */
  lemma GrownRec(front: seq<Unit>, r: seq<Unit>, r': seq<Unit>, s: Span)
    requires WellFormed(front) && IsRec(r) && IsRec(r') && RecSpans(r') == RecSpans(r) + [s]
    ensures WellFormed(front + r) && WellFormed(front + r')
    ensures SpansOf(front + r', false) == Push(SpansOf(front + r, false), s, false)
  {
    hide WellFormed, IsRec, RecSpans, SpansOf, Push;
    AppendRec(front, r);
    AppendRec(front, r');
    PushAllAppend(SpansOf(front, false), RecSpans(r), [s], false);
    PushAllOne(PushAll(SpansOf(front, false), RecSpans(r), false), s);
  }

  lemma BumpShortUnit(c: seq<Unit>, oldLength: nat, newLength: nat)
    requires c != [] && WellFormed(c) && ShortLengths(oldLength, newLength)
    requires IsShort(c[|c| - 1]) && c[|c| - 1] - c[|c| - 1] % 512 == ShortHead(oldLength, newLength)
    requires c[|c| - 1] % 512 < SHORT_CHANGE_NUM_MASK
    ensures WellFormed(c[|c| - 1 := c[|c| - 1] + 1])
    ensures SpansOf(c[|c| - 1 := c[|c| - 1] + 1], false)
         == Push(SpansOf(c, false), Span(true, oldLength, newLength), false)
  {
    hide WellFormed, IsRec, RecSpans, SpansOf, Push, ShortSpan, ShortHead;
    var front: seq<Unit>, last: Unit := c[..|c| - 1], c[|c| - 1];
    var s := Span(true, oldLength, newLength);
    LastUnitRec(c);
    ShortUnitSpan(last, oldLength, newLength);
    ShortRecGrows(last);
    assert front + [last] == c;
    assert front + [last + 1] == c[|c| - 1 := last + 1];
    GrownRec(front, [last], [last + 1], s);
  }

  lemma AppendLongRec(c: seq<Unit>, oldLength: nat, newLength: nat)
    requires WellFormed(c) && oldLength <= INT32_MAX && newLength <= INT32_MAX
    ensures WellFormed(c + LongRec(oldLength, newLength))
    ensures SpansOf(c + LongRec(oldLength, newLength), false)
         == Push(SpansOf(c, false), Span(true, oldLength, newLength), false)
  {
    LongRecDecodes(oldLength, newLength);
    AppendOne(c, LongRec(oldLength, newLength), Span(true, oldLength, newLength));
  }

  // ----- how much of the array is taken

  /** How much unchanged text still fits into the last unit. */
  function RoomOf(c: seq<Unit>): nat {
    if c != [] && c[|c| - 1] <= MAX_UNCHANGED then MAX_UNCHANGED - c[|c| - 1] else 0
  }

  /** What is taken, in units that hold MAX_UNCHANGED_LENGTH text units of unchanged text each. */
  function FillOf(c: seq<Unit>): int { MAX_UNCHANGED_LENGTH * |c| - RoomOf(c) }

  /** With no more than this, the array is not full. */
  const FILL_LIMIT := MAX_UNCHANGED_LENGTH * (INT32_MAX - 9)

  lemma FillBounds(c: seq<Unit>)
    ensures MAX_UNCHANGED_LENGTH * |c| - MAX_UNCHANGED <= FillOf(c) <= MAX_UNCHANGED_LENGTH * |c|
  {
  }

  /** A record takes no more than a change may. */
  lemma FillGrows(c: seq<Unit>, c': seq<Unit>)
    requires |c'| <= |c| + 5
    ensures FillOf(c') <= FillOf(c) + BulkOf(Span(true, 0, 0))
  {
  }

  lemma NoRoom(c: seq<Unit>)
    requires c != [] ==> c[|c| - 1] >= MAX_UNCHANGED
    ensures RoomOf(c) == 0
  {
  }

  lemma FillAppend(c: seq<Unit>, u: Unit)
    ensures RoomOf(c) == 0 && u <= MAX_UNCHANGED ==> FillOf(c + [u]) == FillOf(c) + u + 1
    ensures u == MAX_UNCHANGED ==> RoomOf(c + [u]) == 0
  {
  }

  lemma FillLast(c: seq<Unit>, k: nat)
    requires c != [] && c[|c| - 1] + k <= MAX_UNCHANGED
    ensures var c' := c[|c| - 1 := c[|c| - 1] + k];
            FillOf(c') == FillOf(c) + k && RoomOf(c') == MAX_UNCHANGED - c[|c| - 1] - k
  {
  }
}
