/**
 The bidirectional iterator over an edit log.

 Its fields always denote one position in the list of spans: `Pos` computes that position
 from the fields, and `Valid` says that the string indexes are the sums up to it.
 */
module EditIterator {
  import opened Spans
  import opened Units
  import opened Reading
  import opened SpanIndex

  class Iterator {
    const units: seq<Unit>
    const onlyChanges: bool
    const coarse: bool
    var index: nat
    var remaining: nat
    var dir: int
    var changed: bool
    var oldLength: nat
    var newLength: nat
    var srcIndex: int
    var replIndex: int
    var destIndex: int

    /** All spans that this iterator can deliver, in order. */
    ghost function All(): seq<Span>
      requires WellFormed(units)
    {
      SpansOf(units, coarse)
    }

    ghost function Current(): Span
      reads this
    {
      Span(changed, oldLength, newLength)
    }

    /** The string indexes are at the start of span `k`. */
    ghost predicate IndexesAt(k: int)
      reads this
      requires WellFormed(units)
    {
      && 0 <= k <= |All()|
      && srcIndex == SumOld(All()[..k])
      && destIndex == SumNew(All()[..k])
      && replIndex == SumRepl(All()[..k])
    }

    /** Inside a run of equal short changes that one unit holds: the unit before or at the index. */
    ghost predicate InRun()
      reads this
    {
      remaining > 0 ==>
        && !coarse
        && ((dir == 1 && 0 < index <= |units| && RunUnit(index - 1))
            || (dir == -1 && index < |units| && RunUnit(index)))
    }

    ghost predicate RunUnit(i: nat)
      reads this
      requires i < |units|
    {
      && IsShort(units[i]) && 1 < ShortNum(units[i]) && remaining <= ShortNum(units[i])
      && Boundary(units, i, false) && Boundary(units, i + 1, false)
    }

    /** The position in the list of spans. */
    ghost function Pos(): int
      reads this
      requires Boundary(units, index, coarse) && InRun()
    {
      if dir > 0 then |Before(units, index, coarse)| - (if remaining > 0 then remaining else 1)
      else if remaining > 0 then |Before(units, index + 1, coarse)| - remaining
      else |Before(units, index, coarse)|
    }

    ghost predicate Valid()
      reads this
    {
      && WellFormed(units) && Boundary(units, index, coarse) && InRun()
      && IndexesAt(Pos())
      && (dir == 1 || dir == 0 || dir == -1)
      && (dir == 0 ==> (index == 0 || index == |units|) && oldLength == newLength == 0)
      && (dir != 0 ==> Pos() < |All()| && Current() == All()[Pos()])
    }

    /** At the end of a span, whichever part of it is current. */
    ghost predicate AtSpanEnd()
      reads this
    {
      && dir == 1 && remaining == 0
      && WellFormed(units) && Boundary(units, index, coarse)
      && var b := Before(units, index, coarse);
      && srcIndex + oldLength == SumOld(b)
      && destIndex + newLength == SumNew(b)
      && replIndex + (if changed then newLength else 0) == SumRepl(b)
    }

    /** Enough for moving forward: the current span may also be several spans of a run taken as one. */
    ghost predicate Ready()
      reads this
    {
      Valid() || AtSpanEnd()
    }

    /** The span that moving forward delivers next; after moving backward that is the same one again. */
    ghost function NextPos(): int
      reads this
      requires Ready()
    {
      if dir > 0 then
        |Before(units, index, coarse)| - (if remaining > 0 then remaining - 1 else 0)
      else Pos()
    }

    /** The span that moving backward delivers next; after moving forward that is the same one again. */
    ghost function PrevPos(): int
      reads this
      requires Valid()
    {
      if dir > 0 then Pos() else Pos() - 1
    }

    constructor (units: seq<Unit>, onlyChanges: bool, coarse: bool)
      requires WellFormed(units)
      ensures Valid() && this.units == units && this.onlyChanges == onlyChanges && this.coarse == coarse
      ensures dir == 0 && Pos() == 0
    {
      this.units, this.onlyChanges, this.coarse := units, onlyChanges, coarse;
      index, remaining, dir := 0, 0, 0;
      changed, oldLength, newLength := false, 0, 0;
      srcIndex, replIndex, destIndex := 0, 0, 0;
      new;
      BoundaryEnds(units, coarse);
    }

    method ReadLength(head: nat) returns (len: nat)
      requires index + Trails(head) <= |units|
      modifies this`index
      ensures index == old(index) + Trails(head)
      ensures len == LengthOf(head, units[old(index)..])
    {
      if head < LENGTH_IN_1TRAIL {
        len := head;
      } else if head < LENGTH_IN_2TRAIL {
        len := Low15(units[index]);
        index := index + 1;
      } else {
        len := head % 2 * 0x4000_0000 + Low15(units[index]) * 0x8000 + Low15(units[index + 1]);
        index := index + 2;
      }
    }

    /** Both lengths of the long change whose head unit is just before the index. */
    method ReadLong(u: Unit) returns (oldLen: nat, newLen: nat)
      requires 0 < index <= |units| && units[index - 1] == u && MAX_SHORT_CHANGE < u
      requires index - 1 + RecLen(u) <= |units| && IsRec(units[index - 1..index - 1 + RecLen(u)])
      modifies this`index
      ensures index == old(index) - 1 + RecLen(u)
      ensures Span(true, oldLen, newLen) == LongSpan(units[old(index) - 1..old(index) - 1 + RecLen(u)])
    {
      oldLen := ReadLength(u / 64 % 64);
      newLen := ReadLength(u % 64);
      LengthOfPrefix(OldField(u), units[old(index)..], units[old(index) - 1..index][1..]);
      LengthOfPrefix(NewField(u), units[old(index) + Trails(OldField(u))..],
                     units[old(index) - 1..index][1 + Trails(OldField(u))..]);
    }

    method UpdateNextIndexes()
      modifies this`srcIndex, this`replIndex, this`destIndex
      ensures srcIndex == old(srcIndex) + oldLength
      ensures replIndex == old(replIndex) + if changed then newLength else 0
      ensures destIndex == old(destIndex) + newLength
    {
      srcIndex := srcIndex + oldLength;
      if changed {
        replIndex := replIndex + newLength;
      }
      destIndex := destIndex + newLength;
    }

    method UpdatePreviousIndexes()
      modifies this`srcIndex, this`replIndex, this`destIndex
      ensures srcIndex == old(srcIndex) - oldLength
      ensures replIndex == old(replIndex) - if changed then newLength else 0
      ensures destIndex == old(destIndex) - newLength
    {
      srcIndex := srcIndex - oldLength;
      if changed {
        replIndex := replIndex - newLength;
      }
      destIndex := destIndex - newLength;
    }

    /** No change before or beyond the string. */
    method NoNext()
      requires WellFormed(units) && remaining == 0 && (index == 0 || index == |units|)
      requires Boundary(units, index, coarse) && IndexesAt(|Before(units, index, coarse)|)
      modifies this`dir, this`changed, this`oldLength, this`newLength
      ensures Valid() && dir == 0 && Pos() == |Before(units, index, coarse)|
    {
      dir := 0;
      changed := false;
      oldLength, newLength := 0, 0;
    }

    /** Assembles the unchanged span that starts at the index, joining adjacent units. */
    method ReadUnchangedForward()
      requires Boundary(units, index, coarse) && index < |units| && units[index] <= MAX_UNCHANGED
      modifies this`index, this`changed, this`oldLength, this`newLength
      ensures old(index) < index <= |units| && !changed
      ensures index < |units| ==> units[index] > MAX_UNCHANGED
      ensures Boundary(units, index, coarse)
      ensures Before(units, index, coarse) == Before(units, old(index), coarse) + [Current()]
    {
      hide WellFormed, Raw, SpansOf, Seam, Trails, SumOld, SumNew, Before;
      ghost var start, seg := index, [];
      SumsEmpty();
      SegmentEmpty(units, start);
      StepUnchanged(units, start, start, seg);
      var u := units[index];
      index := index + 1;
      changed := false;
      oldLength := u + 1;
      seg := seg + [Span(false, u + 1, u + 1)];
      while index < |units| && units[index] <= MAX_UNCHANGED
        invariant start < index <= |units| && Segment(units, start, index, seg) && seg != []
        invariant !changed && Uniform(seg, false) && SumOld(seg) == SumNew(seg) == oldLength
      {
        StepUnchanged(units, start, index, seg);
        u := units[index];
        index := index + 1;
        oldLength := oldLength + (u + 1);
        seg := seg + [Span(false, u + 1, u + 1)];
      }
      newLength := oldLength;
      SeamKept(units, start, seg, coarse);
      SeamAfter(units, index, seg, false, coarse);
      SegmentJoined(units, start, index, seg, false, coarse);
    }

    /** Adds the lengths of one change record at the index. */
    method AddRecord()
      requires index < |units| && units[index] > MAX_UNCHANGED
      requires index + RecLen(units[index]) <= |units| && IsRec(units[index..index + RecLen(units[index])])
      modifies this`index, this`oldLength, this`newLength
      ensures index == old(index) + RecLen(units[old(index)])
      ensures oldLength == old(oldLength) + SumOld(RecSpans(units[old(index)..index]))
      ensures newLength == old(newLength) + SumNew(RecSpans(units[old(index)..index]))
    {
      var u := units[index];
      index := index + 1;
      if u <= MAX_SHORT_CHANGE {
        var num := u % 512 + 1;
        oldLength := oldLength + u / 4096 * num;
        newLength := newLength + u / 512 % 8 * num;
        assert units[old(index)..index] == [u];
        ShortRecSums(u);
      } else {
        var oldLen, newLen := ReadLong(u);
        oldLength := oldLength + oldLen;
        newLength := newLength + newLen;
        SumsOne(Span(true, oldLen, newLen));
      }
    }

    /** Coarse granularity: joins all change records from the index on with those read since `start`. */
    method CombineForward(ghost start: nat, ghost first: seq<Span>)
      requires coarse && changed && start < index && Segment(units, start, index, first) && first != []
      requires Uniform(first, true) && Seam(Raw(units[..start]), first, true)
      requires oldLength == SumOld(first) && newLength == SumNew(first)
      modifies this`index, this`oldLength, this`newLength
      ensures old(index) <= index <= |units|
      ensures Boundary(units, start, true) && Boundary(units, index, true)
      ensures Before(units, index, true) == Before(units, start, true) + [Current()]
    {
      hide WellFormed, Raw, SpansOf, RecLen, IsRec, RecSpans;
      ghost var seg := first;
      while index < |units| && units[index] > MAX_UNCHANGED
        invariant start < old(index) <= index && Segment(units, start, index, seg) && seg != []
        invariant Uniform(seg, true) && Seam(Raw(units[..start]), seg, true)
        invariant oldLength == SumOld(seg) && newLength == SumNew(seg)
      {
        StepChange(units, start, index, seg);
        ghost var more := RecSpans(units[index..index + RecLen(units[index])]);
        AddRecord();
        seg := seg + more;
      }
      SeamAfter(units, index, seg, true, true);
      SegmentJoined(units, start, index, seg, true, true);
    }

    /** Assembles the change span that starts at the index. */
    method ReadChangeForward()
      requires Boundary(units, index, coarse) && index < |units| && units[index] > MAX_UNCHANGED
      requires remaining == 0
      modifies this`index, this`remaining, this`changed, this`oldLength, this`newLength
      ensures changed && old(index) < index <= |units| && Boundary(units, index, coarse)
      ensures remaining > 0 ==> !coarse && old(index) == index - 1 && RunUnit(old(index))
      ensures Before(units, index, coarse)
           == Before(units, old(index), coarse) + Repeat(Current(), if remaining > 0 then remaining else 1)
    {
      hide WellFormed, Raw, SpansOf, RecLen, IsRec, RecSpans, Seam, Segment, Uniform, LongSpan;
      ghost var start := index;
      var u := units[index];
      FirstChange(units, start, coarse);
      ghost var seg := RecSpans(units[start..start + RecLen(u)]);
      changed := true;
      index := index + 1;
      if u <= MAX_SHORT_CHANGE {
        ShortRec(units, start);
        var oldLen, newLen := u / 4096, u / 512 % 8;
        var num := u % 512 + 1;
        if coarse {
          oldLength := num * oldLen;
          newLength := num * newLen;
        } else {
          oldLength := oldLen;
          newLength := newLen;
          if num > 1 {
            remaining := num;
          }
          FineChange(units, start);
          return;
        }
      } else {
        LongRecSpans(units, start);
        oldLength, newLength := ReadLong(u);
        if !coarse {
          FineChange(units, start);
          return;
        }
      }
      CombineForward(start, seg);
      assert [Current()] == Repeat(Current(), 1);
    }

    /** Between two spans, about to read the one at the index. */
    ghost predicate Between()
      reads this
    {
      && remaining == 0 && WellFormed(units) && Boundary(units, index, coarse)
      && IndexesAt(|Before(units, index, coarse)|)
    }

    /** Reading from `start` up to the index has delivered the span at the position of `start`. */
    lemma Delivered(start: nat)
      requires WellFormed(units) && Boundary(units, start, coarse) && Boundary(units, index, coarse)
      requires dir == 1 && InRun() && IndexesAt(|Before(units, start, coarse)|)
      requires Before(units, index, coarse)
            == Before(units, start, coarse) + Repeat(Current(), if remaining > 0 then remaining else 1)
      ensures Valid() && Pos() == |Before(units, start, coarse)|
    {
      hide WellFormed, Split, Seam, Before, SpansOf, SumOld, SumNew, SumRepl;
      BoundaryPrefix(units, index, coarse);
      var n := |Before(units, start, coarse)|;
      assert All()[n] == Before(units, index, coarse)[n];
    }

    /** Past the current span. */
    lemma PastCurrent()
      requires Valid() && dir != 0
      ensures Pos() < |All()|
      ensures SumOld(All()[..Pos() + 1]) == srcIndex + oldLength
      ensures SumNew(All()[..Pos() + 1]) == destIndex + newLength
      ensures SumRepl(All()[..Pos() + 1]) == replIndex + if changed then newLength else 0
      ensures dir == 1 && remaining <= 1 ==> All()[..Pos() + 1] == Before(units, index, coarse)
    {
      hide WellFormed, Boundary, Before, SpansOf, SumOld, SumNew, SumRepl;
      BoundaryPrefix(units, index, coarse);
      SumsStep(All(), Pos());
    }

    /** The spans of the first `n` positions are those before a boundary there. */
    lemma PrefixAt(i: nat)
      requires WellFormed(units) && Boundary(units, i, coarse)
      ensures |Before(units, i, coarse)| <= |All()|
      ensures All()[..|Before(units, i, coarse)|] == Before(units, i, coarse)
    {
      hide WellFormed, Boundary, Before, SpansOf;
      BoundaryPrefix(units, i, coarse);
    }

    /** Reads the next span, skipping an unchanged one if only changes are wanted. */
    method ReadForward(changesOnly: bool) returns (has: bool)
      requires Between() && dir == 1
      modifies this
      ensures Valid()
      ensures var q := old(|Before(units, index, coarse)|);
              var target := if changesOnly && q < |All()| && !All()[q].changed then q + 1 else q;
              && (has <==> target < |All()|)
              && dir == (if has then 1 else 0)
              && Pos() == (if has then target else |All()|)
    {
      hide WellFormed, Raw, SpansOf, Seam, SumOld, SumNew, SumRepl, IsShort, Segment;
      ghost var start := index;
      BoundaryEnds(units, coarse);
      PrefixAt(start);
      if index >= |units| {
        NoNext();
        return false;
      }
      if units[index] <= MAX_UNCHANGED {
        ReadUnchangedForward();
        assert [Current()] == Repeat(Current(), 1);
        Delivered(start);
        if !changesOnly {
          return true;
        }
        PastCurrent();
        UpdateNextIndexes();
        start := index;
        if index >= |units| {
          NoNext();
          return false;
        }
      }
      ReadChangeForward();
      Delivered(start);
      return true;
    }

    /** Moves past the current span; in a run of equal changes that is the move to the next one. */
    method LeaveSpan() returns (inRun: bool)
      requires Ready()
      modifies this
      ensures dir == 1 && WellFormed(units)
      ensures inRun ==>
                Valid() && Pos() == old(NextPos()) && 0 <= Pos() < |All()| && All()[Pos()].changed
      ensures !inRun ==> Between() && |Before(units, index, coarse)| == old(NextPos())
    {
      hide WellFormed, Raw, SpansOf, Seam, SumOld, SumNew, SumRepl, IsShort, Segment, Boundary, Before;
      PrefixAt(index);
      if dir > 0 {
        if Valid() { PastCurrent(); }
        UpdateNextIndexes();
      } else {
        if dir < 0 {
          if remaining > 0 {
            RunSpans(index);
            index := index + 1;
            dir := 1;
            return true;
          }
        }
        dir := 1;
      }
      if remaining >= 1 {
        if remaining > 1 {
          remaining := remaining - 1;
          RunSpans(index - 1);
          return true;
        }
        remaining := 0;
      }
      return false;
    }

    /** Moves to the next span, or to the next change span; after a backward move, delivers the same span again. */
    method Next(changesOnly: bool) returns (has: bool)
      requires Ready()
      modifies this
      ensures Valid()
      ensures var q := old(NextPos());
              var target := if changesOnly && q < |All()| && !All()[q].changed then q + 1 else q;
              && (has <==> target < |All()|)
              && dir == (if has then 1 else 0)
              && Pos() == (if has then target else |All()|)
    {
      hide WellFormed, Raw, SpansOf, Seam, SumOld, SumNew, SumRepl, Boundary, Before, Valid, AtSpanEnd;
      has := LeaveSpan();
      if !has {
        has := ReadForward(changesOnly);
      }
    }

    /** Inside the run that one unit holds, all spans are equal. */
    lemma RunSpans(i: nat)
      requires WellFormed(units) && !coarse && i < |units| && RunUnit(i)
      ensures ShortSpan(units[i]).changed
      ensures var a, b := |Before(units, i, false)|, |Before(units, i + 1, false)|;
              && b == a + ShortNum(units[i]) <= |All()|
              && forall k :: a <= k < b ==> All()[k] == ShortSpan(units[i])
    {
      hide WellFormed, Seam, Before, SpansOf, Raw, RecSpans, IsRec, RecLen;
      FineChange(units, i);
      ShortRec(units, i);
      BoundaryPrefix(units, i + 1, false);
      hide Split, Boundary;
      var b := Before(units, i + 1, false);
      assert forall k :: 0 <= k < |b| ==> All()[k] == b[k];
    }

    /** Assembles the unchanged span that ends at the index, joining adjacent units. */
    method ReadUnchangedBackward()
      requires Boundary(units, index, coarse) && 0 < index && units[index - 1] <= MAX_UNCHANGED
      modifies this`index, this`changed, this`oldLength, this`newLength
      ensures index < old(index) && !changed && Boundary(units, index, coarse)
      ensures Before(units, old(index), coarse) == Before(units, index, coarse) + [Current()]
    {
      hide WellFormed, Raw, SpansOf, Seam;
      ghost var end, seg := index, [];
      SegmentEmpty(units, end);
      StepUnchangedBack(units, end, end, seg);
      index := index - 1;
      var u := units[index];
      changed := false;
      oldLength := u + 1;
      seg := [Span(false, u + 1, u + 1)] + seg;
      while index > 0 && units[index - 1] <= MAX_UNCHANGED
        invariant index < end && Segment(units, index, end, seg) && seg != []
        invariant !changed && Uniform(seg, false) && SumOld(seg) == SumNew(seg) == oldLength
      {
        StepUnchangedBack(units, index, end, seg);
        index := index - 1;
        u := units[index];
        oldLength := oldLength + (u + 1);
        seg := [Span(false, u + 1, u + 1)] + seg;
      }
      newLength := oldLength;
      SeamKeptBack(units, end, seg, coarse);
      SeamBefore(units, index, seg, false, coarse);
      SegmentJoined(units, index, end, seg, false, coarse);
    }

    /** Reads the lengths of the long change at the index, leaving the index on its head unit. */
    method PeekLong() returns (oldLen: nat, newLen: nat)
      requires index < |units| && MAX_SHORT_CHANGE < units[index]
      requires index + RecLen(units[index]) <= |units| && IsRec(units[index..index + RecLen(units[index])])
      modifies this`index
      ensures index == old(index)
      ensures Span(true, oldLen, newLen) == LongSpan(units[index..index + RecLen(units[index])])
    {
      var headIndex := index;
      index := index + 1;
      oldLen, newLen := ReadLong(units[headIndex]);
      index := headIndex;
    }

    /** Adds the lengths of the change record at the index, leaving the index on its head unit. */
    method AddRecordBackward()
      requires index < |units| && units[index] > MAX_UNCHANGED
      requires index + RecLen(units[index]) <= |units| && IsRec(units[index..index + RecLen(units[index])])
      modifies this`index, this`oldLength, this`newLength
      ensures index == old(index)
      ensures oldLength == old(oldLength) + SumOld(RecSpans(units[index..index + RecLen(units[index])]))
      ensures newLength == old(newLength) + SumNew(RecSpans(units[index..index + RecLen(units[index])]))
    {
      hide RecSpans, LongSpan, RecLen, IsRec;
      var u := units[index];
      if u <= MAX_SHORT_CHANGE {
        var num := u % 512 + 1;
        oldLength := oldLength + u / 4096 * num;
        newLength := newLength + u / 512 % 8 * num;
        ShortRec(units, index);
        ShortRecSums(u);
        assert units[index..index + 1] == [u];
      } else {
        var oldLen, newLen := PeekLong();
        oldLength := oldLength + oldLen;
        newLength := newLength + newLen;
        LongRecSpans(units, index);
      }
    }

    /** Coarse granularity: joins all change records before the index with those read back from `end`. */
    method CombineBackward(ghost end: nat, ghost first: seq<Span>)
      requires coarse && changed && index < end && Segment(units, index, end, first) && first != []
      requires Uniform(first, true) && Seam(first, Raw(units[end..]), true)
      requires oldLength == SumOld(first) && newLength == SumNew(first)
      modifies this`index, this`oldLength, this`newLength
      ensures index <= old(index) && Boundary(units, index, true) && Boundary(units, end, true)
      ensures Before(units, end, true) == Before(units, index, true) + [Current()]
    {
      hide WellFormed, Raw, SpansOf, RecLen, IsRec, RecSpans, LongSpan;
      ghost var seg, at := first, index;
      while index > 0 && units[index - 1] > MAX_UNCHANGED
        invariant index <= at <= old(index) < end && Segment(units, at, end, seg) && seg != []
        invariant forall k :: index <= k < at ==> units[k] >= 0x8000
        invariant Uniform(seg, true) && Seam(seg, Raw(units[end..]), true)
        invariant oldLength == SumOld(seg) && newLength == SumNew(seg)
      {
        index := index - 1;
        var u := units[index];
        if u <= 0x7fff {
          StepChangeBack(units, index, at, end, seg);
          ghost var more := RecSpans(units[index..at]);
          AddRecordBackward();
          seg, at := more + seg, index;
        }
      }
      NoOpenTrail(units, index, at);
      SeamBefore(units, index, seg, true, true);
      SegmentJoined(units, index, end, seg, true, true);
    }

    /** Backs up from a trail unit to the head unit of its record. */
    method BackUpToHead(ghost h: nat)
      requires h < index < |units| && units[h] <= 0x7fff
      requires forall k :: h < k <= index ==> units[k] >= 0x8000
      modifies this`index
      ensures index == h
    {
      index := index - 1;
      while units[index] > 0x7fff
        invariant h <= index < old(index)
        decreases index
      {
        index := index - 1;
      }
    }

    /** Assembles the change span that ends at the index. */
    method ReadChangeBackward()
      requires Boundary(units, index, coarse) && 0 < index && units[index - 1] > MAX_UNCHANGED
      requires remaining == 0 && dir == -1
      modifies this`index, this`remaining, this`changed, this`oldLength, this`newLength
      ensures changed && index < old(index) && Boundary(units, index, coarse)
      ensures remaining <= 1 && (remaining == 1 ==> !coarse && old(index) == index + 1 && RunUnit(index))
      ensures Before(units, old(index), coarse) == Before(units, index, coarse)
                + Repeat(Current(), if remaining > 0 then ShortNum(units[index]) else 1)
    {
      hide WellFormed, Raw, SpansOf, RecLen, IsRec, RecSpans, Seam, Segment, Uniform, LongSpan;
      ghost var end := index;
      ghost var h := LastChange(units, end, coarse);
      index := index - 1;
      var u := units[index];
      changed := true;
      if u <= MAX_SHORT_CHANGE {
        ShortRec(units, index);
        var oldLen, newLen := u / 4096, u / 512 % 8;
        var num := u % 512 + 1;
        if coarse {
          oldLength := num * oldLen;
          newLength := num * newLen;
        } else {
          oldLength := oldLen;
          newLength := newLen;
          if num > 1 {
            remaining := 1;
          }
          SegmentApart(units, index, end, RecSpans(units[index..end]));
          return;
        }
      } else {
        if u <= 0x7fff {
          // The record is its head unit alone: neither field asks for trail units.
          oldLength, newLength := PeekLong();
        } else {
          BackUpToHead(h);
          oldLength, newLength := PeekLong();
        }
        LongRecSpans(units, index);
        if !coarse {
          SegmentApart(units, index, end, RecSpans(units[index..end]));
          return;
        }
      }
      CombineBackward(end, RecSpans(units[index..end]));
      assert [Current()] == Repeat(Current(), 1);
    }

    /** Reading back from `end` to the index has delivered the last span before `end`. */
    lemma DeliveredBack(end: nat)
      requires WellFormed(units) && Boundary(units, end, coarse) && Boundary(units, index, coarse)
      requires dir == -1 && InRun() && index < end && (remaining > 0 ==> remaining == 1 && end == index + 1)
      requires Before(units, end, coarse) == Before(units, index, coarse)
                 + Repeat(Current(), if remaining > 0 then ShortNum(units[index]) else 1)
      requires srcIndex + oldLength == SumOld(Before(units, end, coarse))
      requires destIndex + newLength == SumNew(Before(units, end, coarse))
      requires replIndex + (if changed then newLength else 0) == SumRepl(Before(units, end, coarse))
      ensures Valid() && Pos() == |Before(units, end, coarse)| - 1
    {
      hide WellFormed, Split, Seam, Before, SpansOf, SumOld, SumNew, SumRepl;
      BoundaryPrefix(units, end, coarse);
      var b := Before(units, end, coarse);
      var n := |b| - 1;
      assert b[n] == Current() == All()[n];
      SumsStep(b, n);
      assert b[..n + 1] == b;
      assert All()[..n] == b[..n];
    }

    /** Moves to the previous span; after a forward move, delivers the same span again. */
    method Previous() returns (has: bool)
      requires Valid()
      modifies this
      ensures Valid()
      ensures var p := old(PrevPos());
              && (has <==> 0 <= p)
              && dir == (if has then -1 else 0)
              && Pos() == (if has then p else 0)
    {
      hide WellFormed, Raw, SpansOf, Seam, SumOld, SumNew, SumRepl, IsShort, Segment;
      BoundaryEnds(units, coarse);
      if dir >= 0 {
        if dir > 0 {
          if remaining > 0 {
            index := index - 1;
            dir := -1;
            return true;
          }
          PastCurrent();
          UpdateNextIndexes();
        }
        dir := -1;
      }
      if remaining > 0 {
        RunSpans(index);
        if remaining <= units[index] % 512 {
          SumsStep(All(), Pos() - 1);
          remaining := remaining + 1;
          UpdatePreviousIndexes();
          return true;
        }
        remaining := 0;
      }
      PrefixAt(index);
      has := ReadBackward();
    }

    /** Reads the previous span. */
    method ReadBackward() returns (has: bool)
      requires Between() && dir == -1
      modifies this
      ensures Valid()
      ensures var p := old(|Before(units, index, coarse)|) - 1;
              && (has <==> 0 <= p)
              && dir == (if has then -1 else 0)
              && Pos() == (if has then p else 0)
    {
      hide WellFormed, Raw, SpansOf, Seam, SumOld, SumNew, SumRepl, IsShort, Segment;
      BoundaryEnds(units, coarse);
      PrefixAt(index);
      if index <= 0 {
        NoNext();
        return false;
      }
      ghost var end := index;
      if units[index - 1] <= MAX_UNCHANGED {
        ReadUnchangedBackward();
        assert [Current()] == Repeat(Current(), 1);
      } else {
        ReadChangeBackward();
      }
      UpdatePreviousIndexes();
      DeliveredBack(end);
      return true;
    }

    /** Moves `n` spans within the current run, towards its end or its start. */
    lemma RunOffsets(i: nat, n: int)
      requires Valid() && remaining > 0 && i < |units| && i == (if dir > 0 then index - 1 else index)
      requires 0 <= remaining - n <= ShortNum(units[i])
      ensures 0 <= Pos() + n <= |All()|
      ensures remaining - n >= 1 ==> Pos() + n < |All()| && All()[Pos() + n] == Current()
      ensures SumOld(All()[..Pos() + n]) == srcIndex + n * oldLength
      ensures SumNew(All()[..Pos() + n]) == destIndex + n * newLength
      ensures SumRepl(All()[..Pos() + n]) == replIndex + n * newLength
    {
      hide WellFormed, Raw, Seam, SpansOf, SumOld, SumNew, SumRepl, IsShort, ShortNum, ShortSpan;
      RunSpans(i);
      var a, b, p := |Before(units, i, false)|, |Before(units, i + 1, false)|, Pos();
      assert a <= p < b && a <= p + n <= b;
      RunMove(All(), a, b, p, n, Current());
    }

    /** The string index at which the current span starts. */
    function SpanStart(source: bool): int
      reads this
    {
      if source then srcIndex else destIndex
    }

    function SpanLength(source: bool): nat
      reads this
    {
      if source then oldLength else newLength
    }

    lemma StartHere(source: bool)
      requires Valid()
      ensures 0 <= Pos() <= |All()| && SpanStart(source) == Start(All(), Pos(), source)
      ensures dir != 0 ==> Pos() < |All()| && SpanLength(source) == Len(All()[Pos()], source)
    {
    }

    /** One move of the backward search: to the previous span, or to an earlier one of the same run. */
    method StepBackward(i: int, source: bool) returns (found: bool)
      requires Valid() && 0 <= i < SpanStart(source)
      modifies this
      ensures Valid() && dir == -1
      ensures found ==> Covers(All(), Pos(), source, i)
      ensures !found ==> i < SpanStart(source) && PrevPos() < old(PrevPos())
    {
      hide WellFormed, Raw, Seam, SpansOf, SumOld, SumNew, SumRepl, IsShort, ShortSpan;
      ghost var p := Pos();
      StartHere(source);
      StartEnds(All(), source);
      var hasPrevious := Previous();
      StartHere(source);
      if Pos() < p { StartStep(All(), Pos(), source); }
      var spanStart := SpanStart(source);
      if i >= spanStart {
        return true;
      }
      if remaining > 0 {
        found := SearchRunBackward(i, source);
        return;
      }
      return false;
    }

    /** Is the index in one of the earlier spans of the current run?  If not, leave the run. */
    method SearchRunBackward(i: int, source: bool) returns (found: bool)
      requires Valid() && dir == -1 && remaining > 0 && i < SpanStart(source)
      modifies this
      ensures Valid() && dir == -1 && Pos() <= old(Pos())
      ensures if found then Covers(All(), Pos(), source, i) else i < SpanStart(source)
    {
      hide WellFormed, Raw, Seam, SpansOf, SumOld, SumNew, SumRepl, IsShort, ShortSpan, Start, Boundary, Before;
      var spanStart, spanLength := SpanStart(source), SpanLength(source);
      var u := units[index];
      var num := u % 512 + 1 - remaining;
      var len := num * spanLength;
      if i >= spanStart - len {
        StepsBackTo(spanStart, i, spanLength, num);
        var n := (spanStart - i - 1) / spanLength + 1;
        JumpBack(n);
        StartHere(source);
        return true;
      }
      LeaveRunBack(num);
      return false;
    }

    method FindBackward(i: int, source: bool)
      requires Valid() && 0 <= i < SpanStart(source)
      modifies this
      ensures Valid() && dir == -1 && Covers(All(), Pos(), source, i)
    {
      var found := false;
      while !found
        invariant Valid()
        invariant if found then dir == -1 && Covers(All(), Pos(), source, i) else i < SpanStart(source)
        decreases if found then -2 else PrevPos()
      {
        found := StepBackward(i, source);
      }
    }

    /** Moves `n` spans back within the current run. */
    method JumpBack(n: nat)
      requires Valid() && dir == -1 && remaining > 0 && remaining + n <= ShortNum(units[index])
      modifies this`srcIndex, this`replIndex, this`destIndex, this`remaining
      ensures Valid() && Pos() == old(Pos()) - n
      ensures srcIndex == old(srcIndex) - n * oldLength && destIndex == old(destIndex) - n * newLength
    {
      hide WellFormed, Raw, Seam, SpansOf, SumOld, SumNew, SumRepl, IsShort, ShortSpan, Boundary, Before;
      RunOffsets(index, 0 - n);
      srcIndex := srcIndex - n * oldLength;
      replIndex := replIndex - n * newLength;
      destIndex := destIndex - n * newLength;
      remaining := remaining + n;
    }

    /** Moves back over all `num` earlier spans of the current run. */
    method LeaveRunBack(num: nat)
      requires Valid() && dir == -1 && remaining > 0 && num == ShortNum(units[index]) - remaining
      modifies this`srcIndex, this`replIndex, this`destIndex, this`remaining
      ensures Valid() && Pos() == old(Pos()) - num
      ensures srcIndex == old(srcIndex) - num * oldLength && destIndex == old(destIndex) - num * newLength
    {
      hide WellFormed, Raw, Seam, SpansOf, SumOld, SumNew, SumRepl, IsShort, ShortSpan, Boundary, Before;
      RunOffsets(index, 0 - num);
      RunSpans(index);
      srcIndex := srcIndex - num * oldLength;
      replIndex := replIndex - num * newLength;
      destIndex := destIndex - num * newLength;
      remaining := 0;
    }

    /** Moves `n` spans forward within the current run. */
    method JumpForward(n: nat)
      requires Valid() && dir == 1 && n < remaining
      modifies this`srcIndex, this`replIndex, this`destIndex, this`remaining
      ensures Valid() && Pos() == old(Pos()) + n
      ensures srcIndex == old(srcIndex) + n * oldLength && destIndex == old(destIndex) + n * newLength
    {
      hide WellFormed, Raw, Seam, SpansOf, SumOld, SumNew, SumRepl, IsShort, ShortSpan, ShortNum;
      RunOffsets(index - 1, n);
      srcIndex := srcIndex + n * oldLength;
      replIndex := replIndex + n * newLength;
      destIndex := destIndex + n * newLength;
      remaining := remaining - n;
    }

    /** Takes the rest of the current run as one span, so that moving forward leaves it at once. */
    method LeaveRunForward()
      requires Valid() && dir == 1 && remaining > 0
      modifies this`oldLength, this`newLength, this`remaining
      ensures AtSpanEnd() && NextPos() == old(Pos() + remaining)
      ensures oldLength == old(oldLength * remaining) && newLength == old(newLength * remaining)
    {
      hide WellFormed, Raw, Seam, SpansOf, SumOld, SumNew, SumRepl, IsShort, ShortSpan, ShortNum;
      RunOffsets(index - 1, remaining);
      RunSpans(index - 1);
      PrefixAt(index);
      oldLength := oldLength * remaining;
      newLength := newLength * remaining;
      remaining := 0;
    }

    /** Is the index in one of the later spans of the current run?  If not, leave the run. */
    method SearchRunForward(i: int, source: bool) returns (found: bool)
      requires Valid() && dir == 1 && remaining > 1 && SpanStart(source) <= i
      modifies this
      ensures found ==> Valid() && dir == 1 && Covers(All(), Pos(), source, i)
      ensures !found ==> AtSpanEnd() && NextPos() > old(Pos()) && i >= SpanStart(source) + SpanLength(source)
    {
      hide WellFormed, Raw, Seam, SpansOf, SumOld, SumNew, SumRepl, IsShort, ShortSpan, Start;
      hide Valid, AtSpanEnd, Pos, NextPos;
      var spanStart, spanLength := SpanStart(source), SpanLength(source);
      var len := remaining * spanLength;
      if i < spanStart + len {
        var n := (i - spanStart) / spanLength;
        StepsBack(i - spanStart, spanLength, remaining);
        assert spanStart + n * spanLength <= i < spanStart + n * spanLength + spanLength;
        JumpForward(n);
        StartHere(source);
        return true;
      }
      LeaveRunForward();
      return false;
    }

    /** Where the next span starts. */
    ghost function NextStart(source: bool): nat
      reads this
      requires Ready()
    {
      if 0 <= NextPos() <= |All()| then Start(All(), NextPos(), source) else 0
    }

    lemma NextStartHere(source: bool)
      requires Ready()
      ensures 0 <= NextPos() <= |All()|
      ensures NextStart(source) == SpanStart(source) + if dir == 1 then SpanLength(source) else 0
    {
      hide WellFormed, Raw, Seam, SpansOf, SumOld, SumNew, SumRepl, IsShort, ShortSpan;
      PrefixAt(index);
      if Valid() && dir == 1 { PastCurrent(); }
    }

    /** Searches forward from a span that starts at or before the index. */
    method FindForward(i: int, source: bool) returns (found: bool)
      requires Valid() && i >= NextStart(source)
      modifies this
      ensures Valid() && (found <==> i < Total(All(), source))
      ensures found ==> dir == 1 && Covers(All(), Pos(), source, i)
      ensures !found ==> dir == 0 && Pos() == |All()|
    {
      hide WellFormed, Raw, Seam, SpansOf, SumOld, SumNew, SumRepl, IsShort, ShortSpan, Start, Boundary, Before;
      NextStartHere(source);
      StartEnds(All(), source);
      var has := Next(false);
      StartHere(source);
      while has
        invariant Valid() && i >= SpanStart(source)
        invariant dir == (if has then 1 else 0) && (!has ==> Pos() == |All()|)
        decreases has, |All()| - Pos()
      {
        StartHere(source);
        if i < SpanStart(source) + SpanLength(source) {
          CoveredInside(All(), Pos(), source, i);
          return true;
        }
        ghost var p := Pos();
        NextStartHere(source);
        if remaining > 1 {
          found := SearchRunForward(i, source);
          if found {
            CoveredInside(All(), Pos(), source, i);
            return;
          }
          NextStartHere(source);
        }
        has := Next(false);
        StartHere(source);
      }
      StartHere(source);
      return false;
    }

    /**
     Moves to the span that covers index `i` of the source or destination string.
     Returns -1 for an index before the string, 0 if found, 1 at or beyond the end.
     Which span is found depends only on the spans, not on earlier moves.
     */
    method FindIndex(i: int, findSource: bool) returns (where: int)
      requires Valid()
      modifies this
      ensures Valid()
      ensures where == if i < 0 then -1 else if i < Total(All(), findSource) then 0 else 1
      ensures where == 0 ==> dir != 0 && Covers(All(), Pos(), findSource, i)
      ensures where == 1 ==> dir == 0 && Pos() == |All()|
    {
      hide WellFormed, Raw, Seam, SpansOf, SumOld, SumNew, SumRepl, IsShort, ShortSpan, Start, Len;
      if i < 0 { return -1; }
      StartHere(findSource);
      NextStartHere(findSource);
      var spanStart, spanLength := SpanStart(findSource), SpanLength(findSource);
      if i < spanStart {
        if i >= spanStart / 2 {
          FindBackward(i, findSource);
          CoveredInside(All(), Pos(), findSource, i);
          return 0;
        }
        dir := 0;
        index, remaining, oldLength, newLength, srcIndex, replIndex, destIndex := 0, 0, 0, 0, 0, 0, 0;
        AtStart();
      } else if i < spanStart + spanLength {
        CoveredInside(All(), Pos(), findSource, i);
        return 0;
      }
      NextStartHere(findSource);
      var found := FindForward(i, findSource);
      where := if found then 0 else 1;
    }

    lemma AtStart()
      requires WellFormed(units) && dir == index == remaining == oldLength == newLength == 0
      requires srcIndex == replIndex == destIndex == 0
      ensures Valid() && Pos() == 0
    {
      BoundaryEnds(units, coarse);
    }

    /** The destination index for a source index, whatever the iterator did before. */
    method DestinationIndexFromSourceIndex(i: int) returns (r: int)
      requires Valid()
      modifies this
      ensures Valid() && r == MapIndex(All(), i, true)
    {
      hide WellFormed, Raw, Seam, SpansOf, SumOld, SumNew, SumRepl, IsShort, ShortSpan, Start;
      var where := FindIndex(i, true);
      StartHere(true);
      StartHere(false);
      if where < 0 { return 0; }
      if where > 0 { MapBeyond(All(), i, true); StartEnds(All(), false); } else { MapCovered(All(), Pos(), i, true); }
      if where > 0 || i == srcIndex { return destIndex; }
      return if changed then destIndex + newLength else destIndex + (i - srcIndex);
    }

    /** The source index for a destination index, whatever the iterator did before. */
    method SourceIndexFromDestinationIndex(i: int) returns (r: int)
      requires Valid()
      modifies this
      ensures Valid() && r == MapIndex(All(), i, false)
    {
      hide WellFormed, Raw, Seam, SpansOf, SumOld, SumNew, SumRepl, IsShort, ShortSpan, Start;
      var where := FindIndex(i, false);
      StartHere(true);
      StartHere(false);
      if where < 0 { return 0; }
      if where > 0 { MapBeyond(All(), i, false); StartEnds(All(), true); } else { MapCovered(All(), Pos(), i, false); }
      if where > 0 || i == destIndex { return srcIndex; }
      return if changed then srcIndex + oldLength else srcIndex + (i - destIndex);
    }
  }

  lemma MulMonotone(a: nat, b: nat, n: nat)
    ensures a <= b ==> a * n <= b * n
  {
  }

  /** How many spans of equal length to step back to reach an index `d + 1` before the current start. */
  lemma StepsBackTo(start: int, i: int, length: nat, num: nat)
    requires start - num * length <= i < start
    ensures length > 0
    ensures var n := (start - i - 1) / length + 1;
            1 <= n <= num && start - n * length <= i < start - n * length + length
  {
    StepsBack(start - i - 1, length, num);
    var n := (start - i - 1) / length + 1;
    assert n * length == (n - 1) * length + length;
  }

  lemma StepsBack(d: nat, length: nat, num: nat)
    requires d < num * length
    ensures length > 0 && d / length < num
    ensures d / length * length <= d < (d / length + 1) * length
  {
    assert d == d / length * length + d % length;
    MulMonotone(num, d / length, length);
  }

  lemma LengthOfPrefix(field: nat, s: seq<Unit>, t: seq<Unit>)
    requires Trails(field) <= |t| && t <= s
    ensures LengthOf(field, s) == LengthOf(field, t)
  {
  }

  lemma ShortRecSums(u: Unit)
    requires IsShort(u)
    ensures IsRec([u]) && RecSpans([u]) == Repeat(ShortSpan(u), ShortNum(u))
    ensures SumOld(RecSpans([u])) == u / 4096 * (u % 512 + 1)
    ensures SumNew(RecSpans([u])) == u / 512 % 8 * (u % 512 + 1)
  {
    assert IsRec([u]) && RecSpans([u]) == Repeat(ShortSpan(u), ShortNum(u));
    hide IsRec, RecSpans, SumOld, SumNew;
    SumsRepeat(ShortSpan(u), ShortNum(u));
  }

  lemma UnchangedRec(u: Unit)
    requires u <= MAX_UNCHANGED
    ensures RecLen(u) == 1 && IsRec([u]) && RecSpans([u]) == [Span(false, u + 1, u + 1)]
    ensures SumOld([Span(false, u + 1, u + 1)]) == SumNew([Span(false, u + 1, u + 1)]) == u + 1
  {
    SumsOne(Span(false, u + 1, u + 1));
  }

  /** One more unit of unchanged text. */
  lemma StepUnchanged(s: seq<Unit>, i: nat, j: nat, seg: seq<Span>)
    requires Segment(s, i, j, seg) && j < |s| && s[j] <= MAX_UNCHANGED
    ensures Segment(s, i, j + 1, seg + [Span(false, s[j] + 1, s[j] + 1)])
    ensures SumOld(seg + [Span(false, s[j] + 1, s[j] + 1)]) == SumOld(seg) + s[j] + 1
    ensures SumNew(seg + [Span(false, s[j] + 1, s[j] + 1)]) == SumNew(seg) + s[j] + 1
  {
    assert s[j..j + 1] == [s[j]];
    UnchangedRec(s[j]);
    hide WellFormed, Raw, RecLen, RecSpans, Segment, IsRec, SumOld, SumNew;
    SegmentForward(s, i, j, seg, 1);
    SumsAppend(seg, [Span(false, s[j] + 1, s[j] + 1)]);
  }

  lemma StepUnchangedBack(s: seq<Unit>, i: nat, j: nat, seg: seq<Span>)
    requires Segment(s, i, j, seg) && 0 < i && s[i - 1] <= MAX_UNCHANGED
    ensures Segment(s, i - 1, j, [Span(false, s[i - 1] + 1, s[i - 1] + 1)] + seg)
    ensures SumOld([Span(false, s[i - 1] + 1, s[i - 1] + 1)] + seg) == SumOld(seg) + s[i - 1] + 1
    ensures SumNew([Span(false, s[i - 1] + 1, s[i - 1] + 1)] + seg) == SumNew(seg) + s[i - 1] + 1
  {
    var u, x := s[i - 1], Span(false, s[i - 1] + 1, s[i - 1] + 1);
    assert i <= |s|;
    UnchangedRec(u);
    hide WellFormed, Raw, RecLen, RecSpans, Segment, IsRec, SumOld, SumNew;
    var h := SegmentBackward(s, i, j, seg);
    assert h == i - 1;
    assert s[h..i] == [u];
    SumsAppend([x], seg);
  }

  /** The change record with its head at `h` and its trail units up to `i`. */
  lemma StepChangeBack(s: seq<Unit>, h: nat, i: nat, j: nat, seg: seq<Span>)
    requires Segment(s, i, j, seg) && h < i && MAX_UNCHANGED < s[h] <= 0x7fff
    requires forall k :: h < k < i ==> s[k] >= 0x8000
    ensures i == h + RecLen(s[h]) && IsRec(s[h..i])
    ensures var more := RecSpans(s[h..i]);
            && more != [] && Uniform(more, true)
            && Segment(s, h, j, more + seg)
            && SumOld(more + seg) == SumOld(more) + SumOld(seg)
            && SumNew(more + seg) == SumNew(more) + SumNew(seg)
  {
    assert i <= |s|;
    hide WellFormed, Raw, RecLen, RecSpans, Segment, IsRec;
    var h' := SegmentBackward(s, i, j, seg);
    assert h' == h;
    RecFlags(s[h..i]);
    SumsAppend(RecSpans(s[h..i]), seg);
  }

  /** Going back over trail units alone never reaches unchanged text or the start. */
  lemma NoOpenTrail(s: seq<Unit>, i: nat, at: nat)
    requires Split(s, at) && i <= at && (0 < i ==> s[i - 1] <= MAX_UNCHANGED)
    requires forall k :: i <= k < at ==> s[k] >= 0x8000
    ensures i == at
  {
    if i < at {
      hide WellFormed, Raw, RecSpans;
      var h := RawBackward(s, at);
    }
  }

  lemma SeamKeptBack(s: seq<Unit>, j: nat, seg: seq<Span>, coarse: bool)
    requires Boundary(s, j, coarse) && seg != [] && 0 < j <= |s|
    requires Uniform(seg, s[j - 1] > MAX_UNCHANGED)
    ensures Seam(seg, Raw(s[j..]), coarse)
  {
    hide Raw, WellFormed;
    RawNonEmpty(s[..j]);
  }

  /** One more change record. */
  lemma StepChange(s: seq<Unit>, i: nat, j: nat, seg: seq<Span>)
    requires Segment(s, i, j, seg) && j < |s| && s[j] > MAX_UNCHANGED
    ensures j + RecLen(s[j]) <= |s| && IsRec(s[j..j + RecLen(s[j])])
    ensures var more := RecSpans(s[j..j + RecLen(s[j])]);
            && more != [] && Uniform(more, true)
            && Segment(s, i, j + RecLen(s[j]), seg + more)
            && SumOld(seg + more) == SumOld(seg) + SumOld(more)
            && SumNew(seg + more) == SumNew(seg) + SumNew(more)
  {
    hide WellFormed, Raw, RecLen, RecSpans, Segment;
    SegmentForward(s, i, j, seg, RecLen(s[j]));
    RecFlags(s[j..j + RecLen(s[j])]);
    SumsAppend(seg, RecSpans(s[j..j + RecLen(s[j])]));
  }

  /** The change record at a boundary, ready to be joined with what follows. */
  lemma FirstChange(s: seq<Unit>, i: nat, coarse: bool)
    requires Boundary(s, i, coarse) && i < |s| && s[i] > MAX_UNCHANGED
    ensures i + RecLen(s[i]) <= |s| && IsRec(s[i..i + RecLen(s[i])])
    ensures var seg := RecSpans(s[i..i + RecLen(s[i])]);
            && seg != [] && Uniform(seg, true)
            && Segment(s, i, i + RecLen(s[i]), seg)
            && Seam(Raw(s[..i]), seg, coarse)
  {
    hide WellFormed, Raw, RecLen, RecSpans;
    SegmentEmpty(s, i);
    StepChange(s, i, i, []);
    var seg := RecSpans(s[i..i + RecLen(s[i])]);
    assert [] + seg == seg;
    SeamKept(s, i, seg, coarse);
  }

  lemma FineChange(s: seq<Unit>, i: nat)
    requires Boundary(s, i, false) && i < |s| && s[i] > MAX_UNCHANGED
    ensures i + RecLen(s[i]) <= |s| && IsRec(s[i..i + RecLen(s[i])])
    ensures Boundary(s, i + RecLen(s[i]), false)
    ensures Before(s, i + RecLen(s[i]), false) == Before(s, i, false) + RecSpans(s[i..i + RecLen(s[i])])
  {
    hide Raw, WellFormed, RecSpans, IsRec;
    FirstChange(s, i, false);
    SegmentApart(s, i, i + RecLen(s[i]), RecSpans(s[i..i + RecLen(s[i])]));
  }

  /** The change record before a boundary, ready to be joined with what precedes. */
  lemma LastChange(s: seq<Unit>, j: nat, coarse: bool) returns (h: nat)
    requires Boundary(s, j, coarse) && 0 < j <= |s| && s[j - 1] > MAX_UNCHANGED
    ensures h < j && MAX_UNCHANGED < s[h] <= 0x7fff && j == h + RecLen(s[h]) && IsRec(s[h..j])
    ensures (forall k :: h < k < j ==> s[k] >= 0x8000) && (h + 1 < j ==> s[h] > MAX_SHORT_CHANGE)
    ensures var seg := RecSpans(s[h..j]);
            && seg != [] && Uniform(seg, true)
            && Segment(s, h, j, seg)
            && Seam(seg, Raw(s[j..]), coarse)
  {
    hide WellFormed, Raw, RecSpans, Segment;
    SegmentEmpty(s, j);
    h := SegmentBackward(s, j, j, []);
    var seg := RecSpans(s[h..j]);
    assert seg + [] == seg;
    RecFlags(s[h..j]);
    assert s[h..j][|s[h..j]| - 1] == s[j - 1];
    SeamKeptBack(s, j, seg, coarse);
  }

  lemma ShortRec(s: seq<Unit>, i: nat)
    requires i < |s| && IsShort(s[i])
    ensures RecLen(s[i]) == 1 && IsRec(s[i..i + 1])
    ensures RecSpans(s[i..i + 1]) == Repeat(ShortSpan(s[i]), ShortNum(s[i]))
    ensures SumOld(RecSpans(s[i..i + 1])) == ShortNum(s[i]) * ShortSpan(s[i]).oldLen
    ensures SumNew(RecSpans(s[i..i + 1])) == ShortNum(s[i]) * ShortSpan(s[i]).newLen
  {
    assert s[i..i + 1] == [s[i]];
    SumsRepeat(ShortSpan(s[i]), ShortNum(s[i]));
  }

  lemma LongRecSpans(s: seq<Unit>, i: nat)
    requires i < |s| && s[i] > MAX_SHORT_CHANGE
    requires i + RecLen(s[i]) <= |s| && IsRec(s[i..i + RecLen(s[i])])
    ensures RecSpans(s[i..i + RecLen(s[i])]) == Repeat(LongSpan(s[i..i + RecLen(s[i])]), 1)
    ensures SumOld(RecSpans(s[i..i + RecLen(s[i])])) == LongSpan(s[i..i + RecLen(s[i])]).oldLen
    ensures SumNew(RecSpans(s[i..i + RecLen(s[i])])) == LongSpan(s[i..i + RecLen(s[i])]).newLen
  {
    SumsOne(LongSpan(s[i..i + RecLen(s[i])]));
  }

  /** The seam at the start of a segment is the seam of the boundary there. */
  lemma SeamKept(s: seq<Unit>, i: nat, seg: seq<Span>, coarse: bool)
    requires Boundary(s, i, coarse) && seg != [] && i < |s|
    requires Uniform(seg, s[i] > MAX_UNCHANGED)
    ensures Seam(Raw(s[..i]), seg, coarse)
  {
    hide Raw, WellFormed;
    RawNonEmpty(s[i..]);
  }
}
