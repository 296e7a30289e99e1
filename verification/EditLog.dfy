/**
 The edit log itself: recording unchanged text and replacements in a growable array of units.
 */
module EditLog {
  import opened Basics
  import opened Spans
  import opened Units
  import opened Encoding
  import opened MergeSteps
  import opened MergeSteady
  import opened MergeUnique
  import EditIterator

  datatype ErrorCode = ZeroError | IllegalArgument | IndexOutOfBounds

  /** How one round of the merge loop ended. */
  datatype MergeStatus = More | Fetched | Finished | LengthsDiffer

  const STACK_CAPACITY := 100

  /** Where recording started: the spans of the log and what they took. */
  datatype Start = Start(spans: seq<Span>, fill: int)

  class Edits {
    const stackArray: array<Unit>
    var units: array<Unit>
    var length: nat
    var delta: int
    var numChanges: nat
    var errorCode: ErrorCode

    /** The shape of the storage, whatever it holds. */
    ghost predicate Shape()
      reads this
    {
      && length <= units.Length
      && STACK_CAPACITY <= units.Length <= INT32_MAX
      && (units == stackArray ==> units.Length == STACK_CAPACITY)
    }

    ghost function Content(): seq<Unit>
      reads this, units
      requires Shape()
    {
      units[..length]
    }

    /** The recorded units are whole records; unless an error has stopped the log, the counters agree with them. */
    ghost predicate Valid()
      reads this, units
    {
      && Shape()
      && WellFormed(Content())
      && INT32_MIN <= delta <= INT32_MAX
      && (errorCode == ZeroError ==>
            && delta == SumNew(Fine()) - SumOld(Fine())
            && numChanges == CountChanges(Fine()))
    }

    /** The spans recorded so far, at fine granularity. */
    ghost function Fine(): seq<Span>
      reads this, units
      requires Shape() && WellFormed(Content())
    {
      SpansOf(Content(), false)
    }

    /** The array cannot grow any more, and there may be no room in it for another replacement. */
    ghost predicate Full()
      reads this
    {
      units.Length > INT32_MAX - 5 && length + 5 > units.Length
    }

    constructor ()
      ensures Valid() && fresh(units) && errorCode == ZeroError
      ensures Fine() == [] && delta == 0 && numChanges == 0 && length == 0
    {
      var a := new Unit[STACK_CAPACITY](_ => 0);
      stackArray, units := a, a;
      length, delta, numChanges := 0, 0, 0;
      errorCode := ZeroError;
    }

    method Reset()
      requires Valid()
      modifies this
      ensures Valid() && units == old(units) && errorCode == ZeroError
      ensures Fine() == [] && delta == 0 && numChanges == 0
    {
      length, delta, numChanges := 0, 0, 0;
      errorCode := ZeroError;
    }

    method LastUnit() returns (u: Unit)
      requires Shape()
      ensures u == if length > 0 then Content()[length - 1] else 0xffff
    {
      u := if length > 0 then units[length - 1] else 0xffff;
    }

    method SetLastUnit(last: Unit)
      requires Shape() && length > 0
      modifies units
      ensures Content() == old(Content())[length - 1 := last]
    {
      units[length - 1] := last;
    }

    /** Growing succeeds exactly while at least five more units fit below the int32 limit. */
    method GrowArray() returns (ok: bool)
      requires Shape()
      modifies this`units, this`errorCode
      ensures Shape() && Content() == old(Content())
      ensures ok <==> old(units.Length) <= INT32_MAX - 5
      ensures ok ==> fresh(units) && units.Length >= old(units.Length) + 5 && errorCode == old(errorCode)
      ensures !ok ==> units == old(units) && errorCode == IndexOutOfBounds
    {
      var capacity := units.Length;
      var newCapacity;
      if units == stackArray {
        newCapacity := 2000;
      } else if capacity == INT32_MAX {
        errorCode := IndexOutOfBounds;
        return false;
      } else if capacity >= INT32_MAX / 2 {
        newCapacity := INT32_MAX;
      } else {
        newCapacity := 2 * capacity;
      }
      if newCapacity - capacity < 5 {
        errorCode := IndexOutOfBounds;
        return false;
      }
      var newArray := new Unit[newCapacity](_ => 0);
      forall i | 0 <= i < length {
        newArray[i] := units[i];
      }
      units := newArray;
      return true;
    }

    method Append(r: Unit)
      requires Shape()
      modifies this`units, this`length, this`errorCode, units
      ensures Shape() && (units == old(units) || fresh(units)) && (old(Full()) ==> Full())
      ensures
        || (errorCode == old(errorCode) && Content() == old(Content()) + [r] && length == old(length) + 1)
        || (errorCode == IndexOutOfBounds && Content() == old(Content()) && Full() && length == old(length))
    {
      var ok := length < units.Length;
      if !ok {
        ok := GrowArray();
      }
      if ok {
        units[length] := r;
        length := length + 1;
      }
    }

    /** Appends units for `n` unchanged text units. */
    method AppendUnchangedUnits(n: nat, ghost goal: seq<Span>)
      requires Shape() && WellFormed(Content()) && errorCode == ZeroError && PushUnchanged(Fine(), n) == goal
      requires RoomOf(Content()) == 0
      modifies this`units, this`length, this`errorCode, units
      ensures Shape() && WellFormed(Content()) && (units == old(units) || fresh(units))
      ensures (errorCode == ZeroError && Fine() == goal) || (errorCode == IndexOutOfBounds && Full())
      ensures FillOf(Content()) <= FillOf(old(Content())) + n
    {
      hide Push, SpansOf, WellFormed, FillOf, RoomOf;
      var rest: nat := n;
      while rest >= MAX_UNCHANGED_LENGTH
        invariant Shape() && WellFormed(Content()) && (units == old(units) || fresh(units))
        invariant
          || (errorCode == ZeroError && PushUnchanged(Fine(), rest) == goal)
          || (errorCode == IndexOutOfBounds && Full())
        invariant RoomOf(Content()) == 0 && FillOf(Content()) + rest <= FillOf(old(Content())) + n
      {
        AppendUnchangedUnit(Content(), MAX_UNCHANGED_LENGTH);
        FillAppend(Content(), MAX_UNCHANGED);
        PushUnchangedPieces(Fine(), MAX_UNCHANGED_LENGTH, rest - MAX_UNCHANGED_LENGTH);
        Append(MAX_UNCHANGED);
        rest := rest - MAX_UNCHANGED_LENGTH;
      }
      if rest > 0 {
        AppendUnchangedUnit(Content(), rest);
        FillAppend(Content(), rest - 1);
        Append(rest - 1);
      }
    }

    /** Records `n` text units as unchanged. */
    method AddUnchanged(n: Int32)
      requires Valid()
      modifies this`units, this`length, this`errorCode, units
      ensures Valid() && (units == old(units) || fresh(units))
      ensures old(errorCode) != ZeroError || n == 0 ==>
                errorCode == old(errorCode) && Content() == old(Content()) && units == old(units)
      ensures old(errorCode) == ZeroError && n < 0 ==>
                errorCode == IllegalArgument && Content() == old(Content())
      ensures old(errorCode) == ZeroError && n > 0 ==>
                || (errorCode == ZeroError && Fine() == Push(old(Fine()), Unchanged(n), false))
                || (errorCode == IndexOutOfBounds && Full())
      ensures n >= 0 ==> FillOf(Content()) <= FillOf(old(Content())) + n
    {
      hide Push, SpansOf, WellFormed, SumOld, SumNew, CountChanges, FillOf, RoomOf;
      if errorCode != ZeroError || n == 0 { return; }
      if n < 0 {
        errorCode := IllegalArgument;
        return;
      }
      var rest: nat := n;
      var last := LastUnit();
      if last < MAX_UNCHANGED {
        var room := MAX_UNCHANGED - last;
        BumpUnchangedUnit(Content(), if room >= rest then rest else room);
        FillLast(Content(), if room >= rest then rest else room);
        if room >= rest {
          SetLastUnit(last + rest);
          SumsPush(old(Fine()), Unchanged(n), false);
          return;
        }
        SetLastUnit(MAX_UNCHANGED);
        rest := rest - room;
        PushUnchangedPieces(old(Fine()), room, rest);
      } else {
        NoRoom(Content());
      }
      AppendUnchangedUnits(rest, Push(old(Fine()), Unchanged(n), false));
      SumsPush(old(Fine()), Unchanged(n), false);
    }

    /** A short replacement: count it in the last unit where that has the same lengths, else add a unit. */
    method AppendShortChange(oldLength: nat, newLength: nat)
      requires Shape() && WellFormed(Content()) && ShortLengths(oldLength, newLength)
      modifies this`units, this`length, this`errorCode, units
      ensures Shape() && WellFormed(Content()) && (units == old(units) || fresh(units))
      ensures
        || (errorCode == old(errorCode) && Fine() == Push(old(Fine()), Span(true, oldLength, newLength), false))
        || (errorCode == IndexOutOfBounds && Content() == old(Content()) && Full())
      ensures length <= old(length) + 5
    {
      hide Push, SpansOf, WellFormed, ShortHead;
      var u := ShortHead(oldLength, newLength);
      var last := LastUnit();
      if MAX_UNCHANGED < last < MAX_SHORT_CHANGE && last - last % 512 == u && last % 512 < SHORT_CHANGE_NUM_MASK {
        BumpShortUnit(Content(), oldLength, newLength);
        SetLastUnit(last + 1);
        return;
      }
      AppendShortUnit(Content(), oldLength, newLength);
      Append(u);
    }

    /** A replacement with both lengths in the head unit or with up to four trail units. */
    method AppendLongChange(oldLength: nat, newLength: nat)
      requires Shape() && oldLength <= INT32_MAX && newLength <= INT32_MAX
      modifies this`units, this`length, this`errorCode, units
      ensures Shape() && (units == old(units) || fresh(units))
      ensures
        || (errorCode == old(errorCode) && Content() == old(Content()) + LongRec(oldLength, newLength))
        || (errorCode == IndexOutOfBounds && Content() == old(Content()) && Full())
      ensures length <= old(length) + 5
    {
      if oldLength < LENGTH_IN_1TRAIL && newLength < LENGTH_IN_1TRAIL {
        assert LongRec(oldLength, newLength) == [LongHead(oldLength, newLength)];
        Append(0x7000 + oldLength * 64 + newLength);
        return;
      }
      var ok := units.Length - length >= 5;
      if !ok {
        ok := GrowArray();
      }
      if ok {
        WriteLongRec(oldLength, newLength);
      }
    }

    method WriteLongRec(oldLength: nat, newLength: nat)
      requires Shape() && oldLength <= INT32_MAX && newLength <= INT32_MAX && units.Length - length >= 5
      modifies this`length, units
      ensures Shape() && Content() == old(Content()) + LongRec(oldLength, newLength) && length <= old(length) + 5
    {
      hide LengthField, LengthTrail, OldField, NewField;
      ghost var p: seq<Unit>, a, b := units[..length + 1], LengthTrail(oldLength), LengthTrail(newLength);
      var oldField, mid := WriteLength(oldLength, length + 1);
      var newField, limit := WriteLength(newLength, mid);
      assert units[..limit] == p + a + b;
      units[length] := 0x7000 + oldField * 64 + newField;
      assert units[..limit] == (p + a + b)[length := LongHead(oldLength, newLength)];
      length := limit;
      ReplaceHead(p, a, b, LongHead(oldLength, newLength));
    }

    /** Writes the trail units of one length from index `at`; returns its head field and the index after them. */
    method WriteLength(n: nat, at: nat) returns (field: nat, limit: nat)
      requires n <= INT32_MAX && at + 2 <= units.Length
      modifies units
      ensures field == LengthField(n) && at <= limit <= at + 2
      ensures units[..limit] == old(units[..at]) + LengthTrail(n)
    {
      if n < LENGTH_IN_1TRAIL {
        field, limit := n, at;
      } else if n <= 0x7fff {
        units[at] := 0x8000 + n;
        field, limit := LENGTH_IN_1TRAIL, at + 1;
      } else {
        units[at] := 0x8000 + n / 0x8000 % 0x8000;
        units[at + 1] := 0x8000 + n % 0x8000;
        field, limit := LENGTH_IN_2TRAIL + n / 0x4000_0000, at + 2;
      }
    }

    /** Records the replacement of `oldLength` text units by `newLength`. */
    method AddReplace(oldLength: Int32, newLength: Int32)
      requires Valid()
      modifies this, units
      ensures Valid() && (units == old(units) || fresh(units))
      ensures old(errorCode) != ZeroError ==>
                errorCode == old(errorCode) && Content() == old(Content()) && units == old(units)
      ensures old(errorCode) == ZeroError && (oldLength < 0 || newLength < 0) ==>
                errorCode == IllegalArgument && Content() == old(Content())
      ensures old(errorCode) == ZeroError && oldLength == newLength == 0 ==>
                errorCode == ZeroError && Content() == old(Content())
      ensures old(errorCode) == ZeroError && oldLength >= 0 && newLength >= 0 && oldLength + newLength > 0 ==>
                || (errorCode == ZeroError && Fine() == Push(old(Fine()), Span(true, oldLength, newLength), false))
                || (errorCode == IndexOutOfBounds && Content() == old(Content())
                    && (!InInt32(old(delta) + newLength - oldLength) || Full()))
      ensures length <= old(length) + 5
    {
      hide Push, SpansOf, WellFormed, SumOld, SumNew, CountChanges;
      if errorCode != ZeroError { return; }
      if oldLength < 0 || newLength < 0 {
        errorCode := IllegalArgument;
        return;
      }
      if oldLength == 0 && newLength == 0 { return; }
      SumsPush(Fine(), Span(true, oldLength, newLength), false);
      numChanges := numChanges + 1;
      var newDelta := newLength - oldLength;
      if newDelta != 0 {
        if (newDelta > 0 && delta >= 0 && newDelta > INT32_MAX - delta)
           || (newDelta < 0 && delta < 0 && newDelta < INT32_MIN - delta) {
          errorCode := IndexOutOfBounds;
          return;
        }
        delta := delta + newDelta;
      }
      if ShortLengths(oldLength, newLength) {
        AppendShortChange(oldLength, newLength);
        return;
      }
      AppendLongRec(Content(), oldLength, newLength);
      AppendLongChange(oldLength, newLength);
    }

    /**
     The log holds `before` and then `out`, unless the difference of the lengths went out of range on the way,
     or the array was full.
     */
    ghost predicate Recorded(before: Start, out: seq<Span>)
      reads this, units
    {
      && Valid() && FillOf(Content()) <= before.fill + Bulk(out)
      && var fits := DeltasFit(SumNew(before.spans) - SumOld(before.spans), out);
         if errorCode == ZeroError then fits && Fine() == PushAll(before.spans, out, false)
         else errorCode == IndexOutOfBounds && (Full() || !fits)
    }

    method RecordChange(a: nat, c: nat, ghost before: Start, ghost out: seq<Span>)
      requires Recorded(before, out) && a <= INT32_MAX && c <= INT32_MAX
      modifies this, units
      ensures Recorded(before, Emit(out, a, c)) && (units == old(units) || fresh(units))
    {
      hide SpansOf, WellFormed, SumOld, SumNew, CountChanges, Push, PushAll, DeltasFit, FillOf, Bulk;
      AddReplace(a, c);
      FillGrows(old(Content()), Content());
      RecordNext(before.spans, out, Span(true, a, c));
    }

    method RecordUnchanged(n: nat, ghost before: Start, ghost out: seq<Span>)
      requires Recorded(before, out) && 0 < n <= INT32_MAX
      modifies this, units
      ensures Recorded(before, out + [Unchanged(n)]) && (units == old(units) || fresh(units))
    {
      hide SpansOf, WellFormed, SumOld, SumNew, CountChanges, Push, PushAll, DeltasFit, FillOf, Bulk;
      AddUnchanged(n);
      RecordNext(before.spans, out, Unchanged(n));
    }

    /**
     Both current spans have text left in string b: records what they have in common, or adds it to
     the pending change, and keeps the remainder of the longer one.
     */
    method MergeCurrent(v: MergeVars, abChanged: bool, bcChanged: bool, ghost before: Start, ghost m: Merging,
                        ghost ka: int, ghost curA: Span, ghost kc: int, ghost curC: Span)
      returns (v': MergeVars, ghost m': Merging)
      requires Recorded(before, m.out) && Inv(m) && Linked(v, m, ka, curA, kc, curC)
      requires v.abLength > 0 && v.bcLength > 0 && abChanged == curA.changed && bcChanged == curC.changed
      requires Steady(v, m, curA, curC) && SumOld(m.ab) <= INT32_MAX && SumNew(m.bc) <= INT32_MAX
      modifies this, units
      ensures Recorded(before, m'.out) && Inv(m') && Linked(v', m', ka, curA, kc, curC)
      ensures Steady(v', m', curA, curC) && AtTop(v', curA)
      ensures m'.ab == m.ab && m'.bc == m.bc && |m'.restA| + |m'.restC| < |m.restA| + |m.restC|
      ensures units == old(units) || fresh(units)
    {
      hide SpansOf, WellFormed, SumOld, SumNew, CountChanges, Push, PushAll, Maps, Borders, Sound, Emit, AllTight;
      hide Totals, Ready, Steady, PlaceB, Recorded;
      CurrentSpans(v, m, ka, curA, kc, curC);
      if !abChanged && !bcChanged {
        v', m' := MergeUnchanged(v, before, m, ka, curA, kc, curC);
        return;
      }
      ghost var n := if v.abLength <= v.bcLength then v.abLength else v.bcLength;
      m' := ConsumeCurrent(v, m, ka, curA, kc, curC, n);
      if !abChanged && bcChanged {
        if v.abLength >= v.bcLength {
          var rest := v.abLength - v.bcLength;
          v' := v.(aLength := rest, abLength := rest, bcLength := 0, pa := 0, pc := 0);
          SideADrop(m.ab, ka, curA, v.aLength, v.abLength, m.restA, n, rest);
          SideCDrop(m.bc, kc, curC, v.bcLength, v.cLength, m.restC, n, v.cLength);
          ConsumedReady(v, m, v', m', ka, curA, kc, curC, n);
          m' := RecordPending(v.pa + v.bcLength, v.pc + v.cLength, v', before, m', ka, curA, kc, curC);
          SteadyRecorded(v', m', curA, curC);
          return;
        }
      } else if abChanged && !bcChanged {
        if v.abLength <= v.bcLength {
          var rest := v.bcLength - v.abLength;
          v' := v.(cLength := rest, bcLength := rest, abLength := 0, pa := 0, pc := 0);
          SideADrop(m.ab, ka, curA, v.aLength, v.abLength, m.restA, n, v.aLength);
          SideCDrop(m.bc, kc, curC, v.bcLength, v.cLength, m.restC, n, rest);
          ConsumedReady(v, m, v', m', ka, curA, kc, curC, n);
          m' := RecordPending(v.pa + v.aLength, v.pc + v.abLength, v', before, m', ka, curA, kc, curC);
          SteadyRecorded(v', m', curA, curC);
          return;
        }
      } else {
        if v.abLength == v.bcLength {
          v' := v.(abLength := 0, bcLength := 0, pa := 0, pc := 0);
          SideADrop(m.ab, ka, curA, v.aLength, v.abLength, m.restA, n, v.aLength);
          SideCDrop(m.bc, kc, curC, v.bcLength, v.cLength, m.restC, n, v.cLength);
          ConsumedReady(v, m, v', m', ka, curA, kc, curC, n);
          m' := RecordPending(v.pa + v.aLength, v.pc + v.cLength, v', before, m', ka, curA, kc, curC);
          SteadyRecorded(v', m', curA, curC);
          return;
        }
      }
      v' := v.(pa := v.pa + v.aLength, pc := v.pc + v.cLength);
      if v.abLength < v.bcLength {
        v' := v'.(bcLength := v.bcLength - v.abLength, cLength := 0, abLength := 0);
      } else {
        v' := v'.(abLength := v.abLength - v.bcLength, aLength := 0, bcLength := 0);
      }
      SideADrop(m.ab, ka, curA, v.aLength, v.abLength, m.restA, n, v'.aLength);
      SideCDrop(m.bc, kc, curC, v.bcLength, v.cLength, m.restC, n, v'.cLength);
      ConsumedSteady(v, m, v', m', ka, curA, kc, curC, n);
    }

    /** Records the pending change where both logs are cut cleanly. */
    method RecordPending(a: nat, c: nat, v: MergeVars, ghost before: Start, ghost m: Merging,
                         ghost ka: int, ghost curA: Span, ghost kc: int, ghost curC: Span)
      returns (ghost m': Merging)
      requires Recorded(before, m.out) && Inv(m) && Ready(m) && a == m.pa && c == m.pc && v.pa == v.pc == 0
      requires Linked(v.(pa := m.pa, pc := m.pc), m, ka, curA, kc, curC)
      requires v.abLength == 0 || !curA.changed || v.abLength == curA.newLen
      requires v.bcLength == 0 || !curC.changed || v.bcLength == curC.oldLen
      requires SumOld(m.ab) <= INT32_MAX && SumNew(m.bc) <= INT32_MAX
      modifies this, units
      ensures Recorded(before, m'.out) && Inv(m') && Linked(v, m', ka, curA, kc, curC)
      ensures m' == m.(out := Emit(m.out, m.pa, m.pc), pa := 0, pc := 0, y0 := PlaceB(m))
      ensures PlaceB(m') == m'.y0
      ensures units == old(units) || fresh(units)
    {
      hide SpansOf, WellFormed, SumOld, SumNew, CountChanges, Push, PushAll, Maps, Borders, Sound, Emit, AtCut, SideA;
      hide SideC, AllTight, Ready, Recorded;
      SideACut(m.ab, ka, curA, v.aLength, v.abLength, m.restA);
      SideCCut(m.bc, kc, curC, v.bcLength, v.cLength, m.restC);
      EmitPending(m);
      RecordChange(a, c, before, m.out);
      m' := m.(out := Emit(m.out, m.pa, m.pc), pa := 0, pc := 0, y0 := PlaceB(m));
    }

    /** Text that neither log changes. */
    method MergeUnchanged(v: MergeVars, ghost before: Start, ghost m: Merging,
                          ghost ka: int, ghost curA: Span, ghost kc: int, ghost curC: Span)
      returns (v': MergeVars, ghost m': Merging)
      requires Recorded(before, m.out) && Inv(m) && Linked(v, m, ka, curA, kc, curC)
      requires v.abLength > 0 && v.bcLength > 0 && !curA.changed && !curC.changed
      requires Steady(v, m, curA, curC) && SumOld(m.ab) <= INT32_MAX && SumNew(m.bc) <= INT32_MAX
      modifies this, units
      ensures Recorded(before, m'.out) && Inv(m') && Linked(v', m', ka, curA, kc, curC)
      ensures Steady(v', m', curA, curC)
      ensures m'.ab == m.ab && m'.bc == m.bc && |m'.restA| + |m'.restC| < |m.restA| + |m.restC|
      ensures units == old(units) || fresh(units)
    {
      hide SpansOf, WellFormed, SumOld, SumNew, CountChanges, Push, PushAll, Maps, Borders, Sound, Emit, AtCut;
      hide AllTight, Ready, Steady, Totals, Recorded;
      NothingPending(v, m, curA, curC);
      v', m' := v, m;
      if v.pa != 0 || v.pc != 0 {
        v' := v.(pa := 0, pc := 0);
        m' := RecordPending(v.pa, v.pc, v', before, m, ka, curA, kc, curC);
      }
      var n := if v.aLength <= v.cLength then v.aLength else v.cLength;
      KeepCurrent(v', m', ka, curA, kc, curC, n);
      RecordUnchanged(n, before, m'.out);
      v' := v'.(aLength := v.aLength - n, abLength := v.aLength - n,
                bcLength := v.cLength - n, cLength := v.cLength - n);
      m' := m'.(out := m'.out + [Unchanged(n)],
                restA := RestA(Span(false, v.aLength, v.abLength), n) + m.ab[ka..],
                restC := RestC(Span(false, v.bcLength, v.cLength), n) + m.bc[kc..], y0 := m'.y0 + n);
      SteadyRecorded(v', m', curA, curC);
    }

    /** Fetches the next edit of bc where its current one is used up; an insertion is dealt with at once. */
    method FetchBc(bcIter: EditIterator.Iterator, v: MergeVars, hasNext: bool, abChanged: bool,
                   ghost before: Start, ghost m: Merging, ghost ka: int, ghost curA: Span)
      returns (v': MergeVars, hasNext': bool, again: bool, ghost m': Merging)
      requires Recorded(before, m.out) && Inv(m) && Feeds(bcIter, m.bc, hasNext)
      requires Linked(v, m, ka, curA, bcIter.NextPos(), bcIter.Current()) && abChanged == curA.changed
      requires Steady(v, m, curA, bcIter.Current()) && AtTop(v, curA)
      requires SumOld(m.ab) <= INT32_MAX && SumNew(m.bc) <= INT32_MAX && v.bcLength == 0
      modifies this, units, bcIter
      ensures Recorded(before, m'.out) && Inv(m') && Feeds(bcIter, m'.bc, hasNext')
      ensures Linked(v', m', ka, curA, bcIter.NextPos(), bcIter.Current())
      ensures Steady(v', m', curA, bcIter.Current()) && AtTop(v', curA)
      ensures m'.ab == m.ab && m'.bc == m.bc
      ensures if again then |m'.restA| + |m'.restC| < |m.restA| + |m.restC| else m' == m
      ensures !again && v'.bcLength == 0 ==> !hasNext'
      ensures v'.aLength == v.aLength && v'.abLength == v.abLength
      ensures units == old(units) || fresh(units)
    {
      hide SpansOf, WellFormed, SumOld, SumNew, CountChanges, Push, PushAll, Maps, Borders, Totals, AllTight, Emit;
      hide SideA, SideC, Sound, Recorded;
      hide EditIterator.Iterator.Valid, EditIterator.Iterator.Pos, Steady, Ready, PlaceB;
      v', hasNext', again, m' := v, hasNext, false, m;
      if hasNext {
        ghost var k, cur := bcIter.NextPos(), bcIter.Current();
        hasNext' := Advance(bcIter, m.bc);
        UsedUp(v, m, ka, curA, k, cur, bcIter.Current());
        SteadyUsedUp(v, m, curA, cur, bcIter.Current());
        if hasNext' {
          v' := v.(bcLength := bcIter.oldLength, cLength := bcIter.newLength);
          if v'.bcLength > 0 {
            FetchedC(v, m, ka, curA, k, cur);
            SteadyFetched(v, m, curA, cur, bcIter.Current());
          } else {
            again := true;
            m' := Inserted(v, m, ka, curA, k, cur);
            if v.abLength == 0 || !abChanged {
              v' := v'.(pa := 0, pc := 0);
              InsertReady(v, m, ka, curA, k, cur, m');
              m' := RecordPending(v.pa, v.pc + v'.cLength, v', before, m', ka, curA, k + 1, bcIter.Current());
              SteadyRecorded(v', m', curA, bcIter.Current());
            } else {
              v' := v'.(pc := v.pc + v'.cLength);
              InsertSteady(v, m, curA, cur, bcIter.Current(), v', m');
            }
          }
        }
      }
    }

    /** Fetches the next edit of ab where its current one is used up; a deletion is dealt with at once. */
    method FetchAb(abIter: EditIterator.Iterator, v: MergeVars, hasNext: bool, bcOldLength: nat, bcChanged: bool,
                   ghost before: Start, ghost m: Merging, ghost kc: int, ghost curC: Span)
      returns (v': MergeVars, hasNext': bool, again: bool, ghost m': Merging)
      requires Recorded(before, m.out) && Inv(m) && Feeds(abIter, m.ab, hasNext)
      requires Linked(v, m, abIter.NextPos(), abIter.Current(), kc, curC)
      requires bcChanged == curC.changed && bcOldLength == curC.oldLen
      requires Steady(v, m, abIter.Current(), curC) && (v.bcLength == 0 ==> kc == |m.bc| && bcOldLength == 0)
      requires SumOld(m.ab) <= INT32_MAX && SumNew(m.bc) <= INT32_MAX && v.abLength == 0
      modifies this, units, abIter
      ensures Recorded(before, m'.out) && Inv(m') && Feeds(abIter, m'.ab, hasNext')
      ensures Linked(v', m', abIter.NextPos(), abIter.Current(), kc, curC)
      ensures Steady(v', m', abIter.Current(), curC) && (again || v'.abLength == 0 ==> AtTop(v', abIter.Current()))
      ensures m'.ab == m.ab && m'.bc == m.bc
      ensures if again then |m'.restA| + |m'.restC| < |m.restA| + |m.restC| else m' == m
      ensures !again && v'.abLength == 0 ==> !hasNext'
      ensures v'.bcLength == v.bcLength
      ensures units == old(units) || fresh(units)
    {
      hide SpansOf, WellFormed, SumOld, SumNew, CountChanges, Push, PushAll, Maps, Borders, Totals, AllTight, Emit;
      hide SideA, SideC, Sound, Recorded;
      hide EditIterator.Iterator.Valid, EditIterator.Iterator.Pos, Steady, Ready, PlaceB;
      v', hasNext', again, m' := v, hasNext, false, m;
      if hasNext {
        ghost var k, cur := abIter.NextPos(), abIter.Current();
        hasNext' := Advance(abIter, m.ab);
        UsedUp(v, m, k, cur, kc, curC, abIter.Current());
        SteadyUsedUp(v, m, cur, curC, abIter.Current());
        if hasNext' {
          v' := v.(aLength := abIter.oldLength, abLength := abIter.newLength);
          if v'.abLength > 0 {
            FetchedA(v, m, k, cur, kc, curC);
            SteadyFetched(v, m, cur, curC, abIter.Current());
          } else {
            again := true;
            m' := Deleted(v, m, k, cur, kc, curC);
            if v.bcLength == bcOldLength || !bcChanged {
              v' := v'.(pa := 0, pc := 0);
              DeleteReady(v, m, k, cur, kc, curC, m');
              m' := RecordPending(v.pa + v'.aLength, v.pc, v', before, m', k + 1, abIter.Current(), kc, curC);
              SteadyRecorded(v', m', abIter.Current(), curC);
            } else {
              v' := v'.(pa := v.pa + v'.aLength);
              PartUsed(v, m, k, cur, kc, curC);
              DeleteSteady(v, m, k, cur, kc, curC, v', m');
            }
          }
        }
      }
    }

    /** The invariant of the merge loop. */
    ghost predicate MergeInv(abIter: EditIterator.Iterator, bcIter: EditIterator.Iterator, v: MergeVars,
                             abHasNext: bool, bcHasNext: bool, before: Start, m: Merging)
      reads this, units, abIter, bcIter
    {
      && Recorded(before, m.out) && Inv(m)
      && SumOld(m.ab) <= INT32_MAX && SumNew(m.bc) <= INT32_MAX
      && Feeds(abIter, m.ab, abHasNext) && Feeds(bcIter, m.bc, bcHasNext)
      && Linked(v, m, abIter.NextPos(), abIter.Current(), bcIter.NextPos(), bcIter.Current())
      && Steady(v, m, abIter.Current(), bcIter.Current())
    }

    /** Fetches where a current edit is used up. */
    method MergeFetch(abIter: EditIterator.Iterator, bcIter: EditIterator.Iterator, v0: MergeVars,
                      abHasNext0: bool, bcHasNext0: bool, ghost before: Start, ghost m0: Merging)
      returns (status: MergeStatus, v: MergeVars, abHasNext: bool, bcHasNext: bool, ghost m: Merging)
      requires MergeInv(abIter, bcIter, v0, abHasNext0, bcHasNext0, before, m0) && abIter != bcIter
      requires AtTop(v0, abIter.Current())
      modifies this, units, abIter, bcIter
      ensures MergeInv(abIter, bcIter, v, abHasNext, bcHasNext, before, m)
      ensures m.ab == m0.ab && m.bc == m0.bc && (status == More ==> AtTop(v, abIter.Current()))
      ensures units == old(units) || fresh(units)
      ensures if status == More then |m.restA| + |m.restC| < |m0.restA| + |m0.restC| else m == m0
      ensures status == Fetched ==> v.abLength > 0 && v.bcLength > 0
      ensures status == Finished ==> m.restA == m.restC == [] && v.abLength == v.bcLength == 0
      ensures status == LengthsDiffer ==> SumNew(m.ab) != SumOld(m.bc)
    {
      hide SpansOf, WellFormed, SumOld, SumNew, CountChanges, Push, PushAll, Inv, Emit, SideA, SideC, Sound;
      hide EditIterator.Iterator.Valid, EditIterator.Iterator.Pos, EditIterator.Iterator.NextPos;
      hide EditIterator.Iterator.AtSpanEnd, Linked, Recorded, Shape, Steady, AtTop;
      v, abHasNext, bcHasNext, m := v0, abHasNext0, bcHasNext0, m0;
      var again := false;
      if v.bcLength == 0 {
        v, bcHasNext, again, m := FetchBc(bcIter, v, bcHasNext, abIter.changed, before, m, abIter.NextPos(),
                                          abIter.Current());
      }
      if !again && v.abLength == 0 {
        v, abHasNext, again, m := FetchAb(abIter, v, abHasNext, bcIter.oldLength, bcIter.changed, before, m,
                                          bcIter.NextPos(), bcIter.Current());
      }
      OneDone(v, m, abIter.NextPos(), abIter.Current(), bcIter.NextPos(), bcIter.Current());
      status :=
        if again then More
        else if v.abLength == 0 then if v.bcLength == 0 then Finished else LengthsDiffer
        else if v.bcLength == 0 then LengthsDiffer
        else Fetched;
    }

    /** One round of the merge loop: fetch, then work on the two current edits. */
    method MergeRound(abIter: EditIterator.Iterator, bcIter: EditIterator.Iterator, v0: MergeVars,
                      abHasNext0: bool, bcHasNext0: bool, ghost before: Start, ghost m0: Merging)
      returns (status: MergeStatus, v: MergeVars, abHasNext: bool, bcHasNext: bool, ghost m: Merging)
      requires MergeInv(abIter, bcIter, v0, abHasNext0, bcHasNext0, before, m0) && abIter != bcIter
      requires AtTop(v0, abIter.Current())
      modifies this, units, abIter, bcIter
      ensures MergeInv(abIter, bcIter, v, abHasNext, bcHasNext, before, m)
      ensures m.ab == m0.ab && m.bc == m0.bc && status != Fetched && (status == More ==> AtTop(v, abIter.Current()))
      ensures units == old(units) || fresh(units)
      ensures status == More ==> |m.restA| + |m.restC| < |m0.restA| + |m0.restC|
      ensures status == Finished ==> m.restA == m.restC == [] && v.abLength == v.bcLength == 0
      ensures status == LengthsDiffer ==> SumNew(m.ab) != SumOld(m.bc)
    {
      hide SpansOf, WellFormed, SumOld, SumNew, CountChanges, Push, PushAll, Inv, Emit, SideA, SideC, Sound;
      hide EditIterator.Iterator.Valid, EditIterator.Iterator.Pos, EditIterator.Iterator.NextPos;
      hide EditIterator.Iterator.AtSpanEnd, Linked, Recorded, Shape, Steady;
      status, v, abHasNext, bcHasNext, m := MergeFetch(abIter, bcIter, v0, abHasNext0, bcHasNext0, before, m0);
      if status == Fetched {
        v, m := MergeCurrent(v, abIter.changed, bcIter.changed, before, m,
                             abIter.NextPos(), abIter.Current(), bcIter.NextPos(), bcIter.Current());
        status := More;
      }
    }

    /** The composition is recorded, unless the difference of the lengths went out of range or the array was full. */
    ghost predicate MergeResult(before: Start, ab: seq<Span>, bc: seq<Span>)
      reads this, units
      requires Valid()
    {
      var delta := SumNew(before.spans) - SumOld(before.spans);
      && CompositionFills(FillOf(Content()) - before.fill, ab, bc)
      && if errorCode == ZeroError then
           AppendsComposition(before.spans, Fine(), ab, bc) && CompositionFits(delta, ab, bc)
         else errorCode == IndexOutOfBounds && (Full() || CompositionOverflows(delta, ab, bc))
    }

    /** A merge does not fail where there is room for the composition. */
    lemma RoomIsEnough(before: Start, ab: seq<Span>, bc: seq<Span>)
      requires Valid() && Sound(ab) && Sound(bc)
      requires SumNew(ab) == SumOld(bc) ==> MergeResult(before, ab, bc)
      ensures CompositionHasRoom(SumNew(before.spans) - SumOld(before.spans), FILL_LIMIT - before.fill, ab, bc) ==>
                errorCode == ZeroError && SumNew(ab) == SumOld(bc)
    {
      hide SpansOf, WellFormed, SumOld, SumNew, CountChanges, FillOf, Sound;
      var delta := SumNew(before.spans) - SumOld(before.spans);
      if CompositionHasRoom(delta, FILL_LIMIT - before.fill, ab, bc) {
        RoomSuffices(delta, FILL_LIMIT - before.fill, FillOf(Content()) - before.fill, ab, bc);
        FillBounds(Content());
        SameMiddle(delta, FILL_LIMIT - before.fill, ab, bc);
      }
    }

    lemma MergeResultAt(before: Start, m: Merging)
      requires Recorded(before, m.out) && Inv(m) && m.restA == m.restC == [] && m.pa == m.pc == 0
      ensures MergeResult(before, m.ab, m.bc)
    {
      hide SpansOf, WellFormed, SumOld, SumNew, CountChanges, Inv, DeltasFit, PushAll, FillOf, Bulk, AppendsComposition;
      hide CompositionFits, CompositionOverflows, CompositionFills, Full;
      MergeEndDeltas(m, SumNew(before.spans) - SumOld(before.spans), before.spans, FillOf(Content()) - before.fill);
    }

    /** Records the last pending change. */
    method MergeFinish(v: MergeVars, ghost before: Start, ghost m0: Merging,
                       ghost ka: int, ghost curA: Span, ghost kc: int, ghost curC: Span)
      requires Recorded(before, m0.out) && Inv(m0) && Linked(v, m0, ka, curA, kc, curC) && Sound(before.spans)
      requires Steady(v, m0, curA, curC)
      requires m0.restA == m0.restC == [] && v.abLength == v.bcLength == 0
      requires SumOld(m0.ab) <= INT32_MAX && SumNew(m0.bc) <= INT32_MAX
      modifies this, units
      ensures Valid() && (units == old(units) || fresh(units))
      ensures SumNew(m0.ab) == SumOld(m0.bc)
      ensures MergeResult(before, m0.ab, m0.bc)
      ensures errorCode == ZeroError ==> AppendsCuts(before.spans, Fine(), m0.ab, m0.bc)
      ensures errorCode != ZeroError ==>
                && errorCode == IndexOutOfBounds
                && (Full() || CutOverflows(SumNew(before.spans) - SumOld(before.spans), m0.ab, m0.bc))
    {
      hide SpansOf, WellFormed, SumOld, SumNew, CountChanges, Push, PushAll, Inv, SideA, SideC, Sound;
      hide AppendsCuts, CutOverflows, Steady, Ready, Recorded, MergeResult;
      ghost var m := m0;
      NothingPending(v, m, curA, curC);
      OneDone(v, m, ka, curA, kc, curC);
      if v.pa != 0 || v.pc != 0 {
        m := RecordPending(v.pa, v.pc, v.(pa := 0, pc := 0), before, m, ka, curA, kc, curC);
      }
      RecordedAtCuts(before, m);
      MergeResultAt(before, m);
    }

    /**
     Merges edits ab and bc, which map string a to b and b to c, and appends the edits from a to c.
     Fails with IllegalArgument if the two logs disagree on the length of string b.
     */
    method MergeAndAppend(ab: Edits, bc: Edits, error: ErrorCode) returns (error': ErrorCode)
      requires Valid() && ab.Valid() && bc.Valid() && this != ab && this != bc
      requires SumOld(ab.Fine()) <= INT32_MAX && SumNew(bc.Fine()) <= INT32_MAX
      modifies this, units
      ensures Valid() && (units == old(units) || fresh(units))
      ensures error != ZeroError || old(errorCode) != ZeroError ==>
                && Fine() == old(Fine()) && errorCode == old(errorCode)
                && error' == if error != ZeroError then error else errorCode
      ensures error == ZeroError && old(errorCode) == ZeroError ==>
                MergeOutcome(Start(old(Fine()), FillOf(old(Content()))), old(ab.Fine()), old(bc.Fine()), error')
    {
      hide SpansOf, WellFormed, SumOld, SumNew, CountChanges, Sound, MergeOutcome, FillOf;
      hide EditIterator.Iterator.Valid, EditIterator.Iterator.Pos;
      if error != ZeroError { return error; }
      if errorCode != ZeroError { return errorCode; }
      SpansOfSound(Content(), false);
      SpansOfSound(ab.Content(), false);
      SpansOfSound(bc.Content(), false);
      var abIter := new EditIterator.Iterator(ab.units[..ab.length], false, false);
      var bcIter := new EditIterator.Iterator(bc.units[..bc.length], false, false);
      error' := MergeIterators(abIter, bcIter);
    }

    /** The same for two fine iterators that have not moved yet. */
    method MergeIterators(abIter: EditIterator.Iterator, bcIter: EditIterator.Iterator) returns (error': ErrorCode)
      requires Valid() && errorCode == ZeroError && Sound(Fine()) && abIter != bcIter
      requires abIter.Valid() && !abIter.coarse && !abIter.onlyChanges && abIter.dir == 0 && abIter.Pos() == 0
      requires bcIter.Valid() && !bcIter.coarse && !bcIter.onlyChanges && bcIter.dir == 0 && bcIter.Pos() == 0
      requires Sound(abIter.All()) && Sound(bcIter.All())
      requires SumOld(abIter.All()) <= INT32_MAX && SumNew(bcIter.All()) <= INT32_MAX
      modifies this, units, abIter, bcIter
      ensures Valid() && (units == old(units) || fresh(units))
      ensures MergeOutcome(Start(old(Fine()), FillOf(old(Content()))), abIter.All(), bcIter.All(), error')
    {
      hide SpansOf, WellFormed, SumOld, SumNew, CountChanges, Sound, FillOf, MergeResult, AppendsCuts, CutOverflows;
      hide CompositionHasRoom, EditIterator.Iterator.Pos;
      ghost var before := Start(Fine(), FillOf(Content()));
      error' := MergeFrom(abIter, bcIter);
      RoomIsEnough(before, abIter.All(), bcIter.All());
    }

    /**
     How a merge ends. Where the logs agree on string b, the composition is recorded, or there is a cause for
     not doing so. Otherwise the edits up to the place where one log ends may have been recorded.
     */
    ghost predicate MergeOutcome(before: Start, ab: seq<Span>, bc: seq<Span>, error: ErrorCode)
      reads this, units
      requires Valid()
    {
      var delta := SumNew(before.spans) - SumOld(before.spans);
      && (errorCode == ZeroError ==>
            && error == (if SumNew(ab) == SumOld(bc) then ZeroError else IllegalArgument)
            && AppendsCuts(before.spans, Fine(), ab, bc))
      && (errorCode != ZeroError ==>
            && error == errorCode == IndexOutOfBounds && (Full() || CutOverflows(delta, ab, bc)))
      && (SumNew(ab) == SumOld(bc) ==> MergeResult(before, ab, bc))
      && (CompositionHasRoom(delta, FILL_LIMIT - before.fill, ab, bc) ==> error == ZeroError)
    }

    lemma MergeStarts(abIter: EditIterator.Iterator, bcIter: EditIterator.Iterator, before: Start)
      requires Valid() && errorCode == ZeroError && before == Start(Fine(), FillOf(Content()))
      requires abIter.Valid() && !abIter.coarse && !abIter.onlyChanges && abIter.dir == 0 && abIter.Pos() == 0
      requires bcIter.Valid() && !bcIter.coarse && !bcIter.onlyChanges && bcIter.dir == 0 && bcIter.Pos() == 0
      requires Sound(abIter.All()) && Sound(bcIter.All())
      requires SumOld(abIter.All()) <= INT32_MAX && SumNew(bcIter.All()) <= INT32_MAX
      ensures var f, g := abIter.All(), bcIter.All();
              var v := MergeVars(0, 0, 0, 0, 0, 0);
              && MergeInv(abIter, bcIter, v, true, true, before, Merging(f, g, [], 0, 0, f, g, 0))
              && AtTop(v, abIter.Current())
    {
      hide SpansOf, WellFormed, SumOld, SumNew, CountChanges, Inv, Linked, Sound, Steady, FillOf;
      var f, g := abIter.All(), bcIter.All();
      MergeStart(f, g);
      LinkedStart(f, g, abIter.Current(), bcIter.Current());
      SteadyStart(f, g, abIter.Current(), bcIter.Current());
      NothingRecorded(before.spans);
    }

    /** The merge loop, from two fine iterators that have not moved yet. */
    method MergeFrom(abIter: EditIterator.Iterator, bcIter: EditIterator.Iterator) returns (error': ErrorCode)
      requires Valid() && errorCode == ZeroError && Sound(Fine()) && abIter != bcIter
      requires abIter.Valid() && !abIter.coarse && !abIter.onlyChanges && abIter.dir == 0 && abIter.Pos() == 0
      requires bcIter.Valid() && !bcIter.coarse && !bcIter.onlyChanges && bcIter.dir == 0 && bcIter.Pos() == 0
      requires Sound(abIter.All()) && Sound(bcIter.All())
      requires SumOld(abIter.All()) <= INT32_MAX && SumNew(bcIter.All()) <= INT32_MAX
      modifies this, units, abIter, bcIter
      ensures Valid() && (units == old(units) || fresh(units))
      ensures errorCode != ZeroError ==> error' == errorCode
      ensures errorCode == ZeroError ==>
                error' == if SumNew(abIter.All()) == SumOld(bcIter.All()) then ZeroError else IllegalArgument
      ensures errorCode == ZeroError ==> AppendsCuts(old(Fine()), Fine(), abIter.All(), bcIter.All())
      ensures errorCode != ZeroError ==>
                errorCode == IndexOutOfBounds && (Full() || CutOverflows(old(delta), abIter.All(), bcIter.All()))
      ensures SumNew(abIter.All()) == SumOld(bcIter.All()) ==>
                MergeResult(Start(old(Fine()), FillOf(old(Content()))), abIter.All(), bcIter.All())
    {
      hide SpansOf, WellFormed, SumOld, SumNew, CountChanges, Inv, Linked, Sound, Recorded, AppendsCuts, CutOverflows;
      hide Steady, MergeResult, FillOf, EditIterator.Iterator.Pos, EditIterator.Iterator.NextPos, Full, AtTop;
      ghost var before, f, g := Start(Fine(), FillOf(Content())), abIter.All(), bcIter.All();
      var v := MergeVars(0, 0, 0, 0, 0, 0);
      ghost var m := Merging(f, g, [], 0, 0, f, g, 0);
      MergeStarts(abIter, bcIter, before);
      var status;
      status, v, m := MergeLoop(abIter, bcIter, v, before, m);
      RecordedAtCuts(before, m);
      if status == LengthsDiffer {
        return if errorCode != ZeroError then errorCode else IllegalArgument;
      }
      MergeFinish(v, before, m, abIter.NextPos(), abIter.Current(), bcIter.NextPos(), bcIter.Current());
      return errorCode;
    }

    /** What has been recorded lies between common cuts; where recording has stopped, a common cut may show why. */
    lemma RecordedAtCuts(before: Start, m: Merging)
      requires Recorded(before, m.out) && Inv(m)
      ensures Valid()
      ensures errorCode == ZeroError ==> AppendsCuts(before.spans, Fine(), m.ab, m.bc)
      ensures errorCode != ZeroError ==>
                && errorCode == IndexOutOfBounds
                && (Full() || CutOverflows(SumNew(before.spans) - SumOld(before.spans), m.ab, m.bc))
    {
      hide SumOld, SumNew, DeltasFit, CutOverflows, Borders, PushAll;
      if errorCode != ZeroError && !Full() {
        OverflowAtCut(m.ab, m.bc, m.out, SumNew(before.spans) - SumOld(before.spans));
      }
    }

    /** Goes through both logs until they are used up, or one of them is too short. */
    method MergeLoop(abIter: EditIterator.Iterator, bcIter: EditIterator.Iterator, v0: MergeVars,
                     ghost before: Start, ghost m0: Merging)
      returns (status: MergeStatus, v: MergeVars, ghost m: Merging)
      requires MergeInv(abIter, bcIter, v0, true, true, before, m0) && abIter != bcIter && AtTop(v0, abIter.Current())
      modifies this, units, abIter, bcIter
      ensures exists abHasNext, bcHasNext :: MergeInv(abIter, bcIter, v, abHasNext, bcHasNext, before, m)
      ensures m.ab == m0.ab && m.bc == m0.bc && (units == old(units) || fresh(units))
      ensures status == Finished || status == LengthsDiffer
      ensures status == Finished ==> m.restA == m.restC == [] && v.abLength == v.bcLength == 0
      ensures status == LengthsDiffer ==> SumNew(m.ab) != SumOld(m.bc)
    {
      hide SpansOf, WellFormed, SumOld, SumNew, MergeInv, AtTop;
      var abHasNext, bcHasNext := true, true;
      v, m, status := v0, m0, More;
      while status == More
        invariant MergeInv(abIter, bcIter, v, abHasNext, bcHasNext, before, m) && m.ab == m0.ab && m.bc == m0.bc
        invariant status == More ==> AtTop(v, abIter.Current())
        invariant status != Fetched && (units == old(units) || fresh(units))
        invariant status == Finished ==> m.restA == m.restC == [] && v.abLength == v.bcLength == 0
        invariant status == LengthsDiffer ==> SumNew(m.ab) != SumOld(m.bc)
        decreases status == More, |m.restA| + |m.restC|
      {
        status, v, abHasNext, bcHasNext, m := MergeRound(abIter, bcIter, v, abHasNext, bcHasNext, before, m);
      }
    }
  }

  /** What recording one more span means for the difference of the lengths. */
  lemma RecordNext(before: seq<Span>, out: seq<Span>, s: Span)
    ensures PushAll(before, out + [s], false) == Push(PushAll(before, out, false), s, false)
    ensures var delta := SumNew(before) - SumOld(before);
            var all := PushAll(before, out, false);
            DeltasFit(delta, out + [s]) <==>
              DeltasFit(delta, out) && InInt32(SumNew(all) - SumOld(all) + s.newLen - s.oldLen)
    ensures Bulk(out + [s]) == Bulk(out) + BulkOf(s)
    ensures var all, more := PushAll(before, out, false), PushAll(before, out + [s], false);
            SumNew(more) - SumOld(more) == SumNew(all) - SumOld(all) + s.newLen - s.oldLen
  {
    hide SumOld, SumNew, DeltasFit, InInt32, Push;
    BulkSnoc(out, s);
    PushAllSnoc(before, out, s);
    SumsPushAll(before, out, false);
    SumsPush(PushAll(before, out, false), s, false);
    DeltasFitSnoc(SumNew(before) - SumOld(before), out, s);
  }

  lemma NothingRecorded(before: seq<Span>)
    ensures DeltasFit(SumNew(before) - SumOld(before), []) <==> InInt32(SumNew(before) - SumOld(before))
    ensures PushAll(before, [], false) == before && Bulk([]) == 0
  {
    var none: seq<Span> := [];
    assert none[..0] == none;
  }

  /** A fine iterator that moves forward over the spans `ss`. */
  ghost predicate Feeds(it: EditIterator.Iterator, ss: seq<Span>, hasNext: bool)
    reads it
  {
    && it.Valid() && !it.coarse && !it.onlyChanges && it.dir >= 0 && it.All() == ss
    && (!hasNext ==> it.NextPos() == |ss| && it.oldLength == 0)
  }

  method Advance(it: EditIterator.Iterator, ghost ss: seq<Span>) returns (has: bool)
    requires Feeds(it, ss, true)
    modifies it
    ensures Feeds(it, ss, has)
    ensures has <==> old(it.NextPos()) < |ss|
    ensures has ==> it.NextPos() == old(it.NextPos()) + 1 && it.Current() == ss[old(it.NextPos())]
    ensures !has ==> old(it.NextPos()) == |ss|
  {
    hide SpansOf, WellFormed, SumOld, SumNew, Spans.Seam, Units.Raw;
    it.NextStartHere(true);
    has := it.Next(it.onlyChanges);
  }
}
