/**
 The state of merging two edit logs, and why each step of the merge keeps it right.
 */
module MergeSteps {
  import opened Basics
  import opened Spans
  import opened Compose
  import opened Cuts

  /**
   Edits `ab` and `bc` are being merged: `out` has been recorded, a change from `pa` to `pc` text units
   is pending, and `restA` and `restC` remain of the two logs, perhaps with truncated first spans.
   The pending change starts at place `y0` of string b.
   */
  datatype Merging = Merging(ab: seq<Span>, bc: seq<Span>, out: seq<Span>, pa: nat, pc: nat,
                             restA: seq<Span>, restC: seq<Span>, y0: int)

  ghost predicate Totals(m: Merging) {
    && SumOld(m.ab) == SumOld(m.out) + m.pa + SumOld(m.restA)
    && SumNew(m.bc) == SumNew(m.out) + m.pc + SumNew(m.restC)
    && SumNew(m.ab) - SumNew(m.restA) == SumOld(m.bc) - SumOld(m.restC)
  }

  ghost predicate MapsAt(m: Merging, i: int) {
    var x := SumOld(m.out) + m.pa;
    Through(m.ab, m.bc, i) ==
      if i < x then Image(m.out, i) else Shift(Through(m.restA, m.restC, i - x), SumNew(m.out) + m.pc)
  }

  ghost predicate Maps(m: Merging) {
    forall i :: 0 <= i ==> MapsAt(m, i)
  }

  ghost predicate Borders(ab: seq<Span>, bc: seq<Span>, out: seq<Span>) {
    forall t :: 0 <= t <= |out| ==> CommonCut(ab, bc, SumOld(out[..t]), SumNew(out[..t]))
  }

  /** No recorded change could be split, or should come after a later one. */
  ghost predicate AllTight(ab: seq<Span>, bc: seq<Span>, out: seq<Span>) {
    forall t :: 0 <= t < |out| && out[t].changed ==> TightAt(ab, bc, out, t)
  }

  ghost predicate TightAt(ab: seq<Span>, bc: seq<Span>, out: seq<Span>, t: int)
    requires 0 <= t < |out|
  {
    var x, z := SumOld(out[..t]), SumNew(out[..t]);
    (out[t].oldLen > 0 || out[t].newLen > 0) && Tight(ab, bc, x, z, x + out[t].oldLen, z + out[t].newLen)
  }

  ghost predicate Inv(m: Merging) {
    && Totals(m) && Maps(m) && Borders(m.ab, m.bc, m.out) && AllTight(m.ab, m.bc, m.out)
    && Sound(m.out) && Sound(m.restA) && Sound(m.restC)
  }

  /** The place in string b that has been reached. */
  ghost function PlaceB(m: Merging): int { SumNew(m.ab) - SumNew(m.restA) }

  /** The pending change, if there is one, can be recorded. */
  ghost predicate Ready(m: Merging) {
    m.pa != 0 || m.pc != 0 ==>
      Tight(m.ab, m.bc, SumOld(m.out), SumNew(m.out), SumOld(m.out) + m.pa, SumNew(m.out) + m.pc)
  }

  /** What has been consumed of a log is cut off cleanly from what remains of it. */
  ghost predicate AtCut(ss: seq<Span>, rest: seq<Span>) {
    Cut(ss, SumOld(ss) - SumOld(rest), SumNew(ss) - SumNew(rest))
  }

  /** Taking `x` units of string a and `z` units of string c off the front, none of them the same text. */
  ghost predicate Consumes(a: seq<Span>, c: seq<Span>, x: nat, z: nat, a': seq<Span>, c': seq<Span>) {
    && Sound(a') && Sound(c')
    && SumOld(a) == x + SumOld(a') && SumNew(c) == z + SumNew(c')
    && SumNew(a) - SumNew(a') == SumOld(c) - SumOld(c')
    && forall i :: 0 <= i ==> ConsumesAt(a, c, x, z, a', c', i)
  }

  ghost predicate ConsumesAt(a: seq<Span>, c: seq<Span>, x: nat, z: nat, a': seq<Span>, c': seq<Span>, i: int) {
    Through(a, c, i) == if i < x then None else Shift(Through(a', c', i - x), z)
  }

  /** The same for `n` units of the same text. */
  ghost predicate Keeps(a: seq<Span>, c: seq<Span>, n: nat, a': seq<Span>, c': seq<Span>) {
    && Sound(a') && Sound(c')
    && SumOld(a) == n + SumOld(a') && SumNew(c) == n + SumNew(c')
    && SumNew(a) - SumNew(a') == SumOld(c) - SumOld(c')
    && forall i :: 0 <= i ==> KeepsAt(a, c, n, a', c', i)
  }

  ghost predicate KeepsAt(a: seq<Span>, c: seq<Span>, n: nat, a': seq<Span>, c': seq<Span>, i: int) {
    Through(a, c, i) == if i < n then Some(i) else Shift(Through(a', c', i - n), n)
  }

  function Emit(out: seq<Span>, a: nat, c: nat): seq<Span> {
    if a == 0 && c == 0 then out else out + [Span(true, a, c)]
  }

  // ----- the three kinds of steps

  lemma MergeStart(ab: seq<Span>, bc: seq<Span>)
    requires Sound(ab) && Sound(bc)
    ensures Inv(Merging(ab, bc, [], 0, 0, ab, bc, 0))
  {
    var m := Merging(ab, bc, [], 0, 0, ab, bc, 0);
    forall t | 0 <= t <= |m.out| ensures CommonCut(ab, bc, SumOld(m.out[..t]), SumNew(m.out[..t])) {
      assert CutAt(ab, 0, 0, 0, 0);
      assert CutAt(bc, 0, 0, 0, 0);
      assert Cut(ab, 0, 0) && Cut(bc, 0, 0);
    }
  }

  lemma Pend(m: Merging, x: nat, z: nat, a': seq<Span>, c': seq<Span>)
    requires Inv(m) && Consumes(m.restA, m.restC, x, z, a', c')
    ensures Inv(m.(pa := m.pa + x, pc := m.pc + z, restA := a', restC := c'))
  {
    hide SumOld, SumNew, Image, Through, CommonCut, AllTight;
    var m' := m.(pa := m.pa + x, pc := m.pc + z, restA := a', restC := c');
    forall i | 0 <= i ensures MapsAt(m', i) {
      assert MapsAt(m, i);
      var j := i - SumOld(m.out) - m.pa;
      if 0 <= j {
        assert ConsumesAt(m.restA, m.restC, x, z, a', c', j);
        ImageBeyond(m.out, i);
      }
    }
  }

  lemma BorderHere(ab: seq<Span>, bc: seq<Span>, restA: seq<Span>, restC: seq<Span>)
    requires AtCut(ab, restA) && AtCut(bc, restC)
    requires SumNew(ab) - SumNew(restA) == SumOld(bc) - SumOld(restC)
    ensures CommonCut(ab, bc, SumOld(ab) - SumOld(restA), SumNew(bc) - SumNew(restC))
  {
    hide Cut, SumOld, SumNew;
  }

  lemma BordersSnoc(ab: seq<Span>, bc: seq<Span>, out: seq<Span>, s: Span)
    requires Borders(ab, bc, out) && CommonCut(ab, bc, SumOld(out) + s.oldLen, SumNew(out) + s.newLen)
    ensures Borders(ab, bc, out + [s])
  {
    SumsSnoc(out, s);
    hide CommonCut, SumOld, SumNew;
    var out' := out + [s];
    forall t | 0 <= t <= |out'| ensures CommonCut(ab, bc, SumOld(out'[..t]), SumNew(out'[..t])) {
      if t <= |out| {
        assert out'[..t] == out[..t];
      } else {
        assert out'[..t] == out';
      }
    }
  }

  lemma TightKept(ab: seq<Span>, bc: seq<Span>, out: seq<Span>, s: Span, t: int)
    requires 0 <= t < |out| && out[t].changed && AllTight(ab, bc, out)
    ensures TightAt(ab, bc, out + [s], t)
  {
    hide Tight, SumOld, SumNew;
    assert (out + [s])[..t] == out[..t];
    assert TightAt(ab, bc, out, t);
  }

  lemma TightLast(ab: seq<Span>, bc: seq<Span>, out: seq<Span>, s: Span)
    requires s.oldLen > 0 || s.newLen > 0
    requires Tight(ab, bc, SumOld(out), SumNew(out), SumOld(out) + s.oldLen, SumNew(out) + s.newLen)
    ensures TightAt(ab, bc, out + [s], |out|)
  {
    hide Tight, SumOld, SumNew;
    assert (out + [s])[..|out|] == out;
  }

  lemma TightSnoc(ab: seq<Span>, bc: seq<Span>, out: seq<Span>, s: Span)
    requires AllTight(ab, bc, out)
    requires s.changed ==> s.oldLen > 0 || s.newLen > 0
    requires s.changed ==> Tight(ab, bc, SumOld(out), SumNew(out), SumOld(out) + s.oldLen, SumNew(out) + s.newLen)
    ensures AllTight(ab, bc, out + [s])
  {
    hide Tight, SumOld, SumNew, TightAt;
    var out' := out + [s];
    forall t | 0 <= t < |out'| && out'[t].changed ensures TightAt(ab, bc, out', t) {
      if t < |out| { TightKept(ab, bc, out, s, t); } else { TightLast(ab, bc, out, s); }
    }
  }

  lemma ImageSnoc(out: seq<Span>, s: Span, i: int)
    requires 0 <= i < SumOld(out) + s.oldLen
    ensures Image(out + [s], i) == if i < SumOld(out) then Image(out, i)
                                   else if s.changed then None else Some(i - SumOld(out) + SumNew(out))
  {
    ImageAppend(out, [s], i);
    assert [s] + [] == [s];
    if SumOld(out) <= i { ImageCons(s, [], i - SumOld(out)); }
  }

  lemma SumsSnoc(out: seq<Span>, s: Span)
    ensures SumOld(out + [s]) == SumOld(out) + s.oldLen && SumNew(out + [s]) == SumNew(out) + s.newLen
  {
    assert (out + [s])[..|out|] == out;
  }

  lemma EmitPendingAt(m: Merging, i: int)
    requires MapsAt(m, i) && 0 <= i
    ensures MapsAt(m.(out := m.out + [Span(true, m.pa, m.pc)], pa := 0, pc := 0, y0 := PlaceB(m)), i)
  {
    var s := Span(true, m.pa, m.pc);
    SumsSnoc(m.out, s);
    hide SumOld, SumNew, Image, Through;
    if i < SumOld(m.out) + m.pa { ImageSnoc(m.out, s, i); }
    if SumOld(m.out) <= i { ImageBeyond(m.out, i); }
  }

  lemma EmitPendingMaps(m: Merging)
    requires Maps(m)
    ensures Maps(m.(out := m.out + [Span(true, m.pa, m.pc)], pa := 0, pc := 0, y0 := PlaceB(m)))
  {
    var m' := m.(out := m.out + [Span(true, m.pa, m.pc)], pa := 0, pc := 0, y0 := PlaceB(m));
    forall i | 0 <= i ensures MapsAt(m', i) {
      assert MapsAt(m, i);
      EmitPendingAt(m, i);
    }
  }

  lemma SoundSnoc(out: seq<Span>, s: Span)
    requires Sound(out) && (s.changed || s.oldLen == s.newLen > 0)
    ensures Sound(out + [s])
  {
  }

  lemma SamePlace(m: Merging, y: int)
    requires Maps(m)
    ensures Maps(m.(y0 := y))
  {
    forall i | 0 <= i ensures MapsAt(m.(y0 := y), i) { assert MapsAt(m, i); }
  }

  /** Recording the pending change. */
  lemma EmitPending(m: Merging)
    requires Inv(m) && Ready(m) && AtCut(m.ab, m.restA) && AtCut(m.bc, m.restC)
    ensures Inv(m.(out := Emit(m.out, m.pa, m.pc), pa := 0, pc := 0, y0 := PlaceB(m)))
  {
    hide SumOld, SumNew, MapsAt, CommonCut, Sound, Cut, Borders, AllTight, Tight;
    SamePlace(m, PlaceB(m));
    if m.pa != 0 || m.pc != 0 {
      TightSnoc(m.ab, m.bc, m.out, Span(true, m.pa, m.pc));
      var s := Span(true, m.pa, m.pc);
      SoundSnoc(m.out, s);
      SumsSnoc(m.out, s);
      BorderHere(m.ab, m.bc, m.restA, m.restC);
      BordersSnoc(m.ab, m.bc, m.out, s);
      EmitPendingMaps(m);
    }
  }

  lemma EmitUnchangedAt(m: Merging, n: nat, a': seq<Span>, c': seq<Span>, i: int)
    requires MapsAt(m, i) && m.pa == m.pc == 0 && Keeps(m.restA, m.restC, n, a', c') && 0 <= i
    ensures MapsAt(m.(out := m.out + [Span(false, n, n)], restA := a', restC := c', y0 := m.y0 + n), i)
  {
    var s := Span(false, n, n);
    hide SumOld, SumNew, Image, Through;
    SumsSnoc(m.out, s);
    var j := i - SumOld(m.out);
    if 0 <= j { assert KeepsAt(m.restA, m.restC, n, a', c', j); }
    if i < SumOld(m.out) + n { ImageSnoc(m.out, s, i); }
  }

  lemma EmitUnchangedMaps(m: Merging, n: nat, a': seq<Span>, c': seq<Span>)
    requires Maps(m) && m.pa == m.pc == 0 && Keeps(m.restA, m.restC, n, a', c')
    ensures Maps(m.(out := m.out + [Span(false, n, n)], restA := a', restC := c', y0 := m.y0 + n))
  {
    var m' := m.(out := m.out + [Span(false, n, n)], restA := a', restC := c', y0 := m.y0 + n);
    forall i | 0 <= i ensures MapsAt(m', i) {
      assert MapsAt(m, i);
      EmitUnchangedAt(m, n, a', c', i);
    }
  }

  /** Recording unchanged text. */
  lemma EmitUnchanged(m: Merging, n: nat, a': seq<Span>, c': seq<Span>)
    requires Inv(m) && m.pa == m.pc == 0 && n > 0 && Keeps(m.restA, m.restC, n, a', c')
    requires AtCut(m.ab, a') && AtCut(m.bc, c')
    ensures Inv(m.(out := m.out + [Span(false, n, n)], restA := a', restC := c', y0 := m.y0 + n))
  {
    hide SumOld, SumNew, Maps, CommonCut, Cut, AllTight, KeepsAt, Sound, Borders;
    var s := Span(false, n, n);
    EmitUnchangedMaps(m, n, a', c');
    TightSnoc(m.ab, m.bc, m.out, s);
    SumsSnoc(m.out, s);
    SoundSnoc(m.out, s);
    BorderHere(m.ab, m.bc, a', c');
    BordersSnoc(m.ab, m.bc, m.out, s);
  }

  // ----- what one step consumes

  lemma InsertStep(a: seq<Span>, s: Span, c': seq<Span>)
    requires Sound(a) && Sound(c') && s.changed && s.oldLen == 0
    ensures Consumes(a, [s] + c', 0, s.newLen, a, c')
  {
    hide SumOld, SumNew, Image;
    SumsCons(s, c');
    forall i | 0 <= i ensures ConsumesAt(a, [s] + c', 0, s.newLen, a, c', i) {
      ImageRange(a, i);
      if Image(a, i).Some? { ImageCons(s, c', Image(a, i).value); }
    }
  }

  lemma DeleteStep(s: Span, a': seq<Span>, c: seq<Span>)
    requires Sound(a') && Sound(c) && s.changed && s.newLen == 0
    ensures Consumes([s] + a', c, s.oldLen, 0, a', c)
  {
    hide SumOld, SumNew, Image;
    SumsCons(s, a');
    forall i | 0 <= i ensures ConsumesAt([s] + a', c, s.oldLen, 0, a', c, i) {
      ImageCons(s, a', i);
    }
  }

  /** What remains of a span of ab after `n` units of string b, and how much of string a that uses up. */
  function RestA(s: Span, n: nat): seq<Span>
    requires n <= s.newLen && (s.changed || s.oldLen == s.newLen)
  {
    if n == s.newLen then []
    else if s.changed then [Span(true, 0, s.newLen - n)] else [Span(false, s.oldLen - n, s.newLen - n)]
  }

  function UsedA(s: Span, n: nat): nat {
    if s.changed then s.oldLen else n
  }

  /** The same for a span of bc and string c. */
  function RestC(s: Span, n: nat): seq<Span>
    requires n <= s.oldLen && (s.changed || s.oldLen == s.newLen)
  {
    if n == s.oldLen then []
    else if s.changed then [Span(true, s.oldLen - n, 0)] else [Span(false, s.oldLen - n, s.newLen - n)]
  }

  function UsedC(s: Span, n: nat): nat {
    if s.changed then s.newLen else n
  }

  /** Two first spans with `n` units of string b in common. */
  ghost predicate Meet(s: Span, t: Span, n: nat) {
    && 0 < n && n == (if s.newLen <= t.oldLen then s.newLen else t.oldLen)
    && (s.changed || s.oldLen == s.newLen) && (t.changed || t.oldLen == t.newLen)
  }

  /** Reading on from a remainder is reading on in the span itself, `n` units later. */
  lemma ImageRestC(t: Span, c': seq<Span>, n: nat, k: int)
    requires n <= t.oldLen && (t.changed || t.oldLen == t.newLen) && 0 <= k
    ensures Image([t] + c', k + n) == Shift(Image(RestC(t, n) + c', k), UsedC(t, n))
  {
    ImageCons(t, c', k + n);
    if n == t.oldLen {
      assert RestC(t, n) + c' == c';
    } else {
      ImageCons(RestC(t, n)[0], c', k);
    }
  }

  lemma ImageRestA(s: Span, a': seq<Span>, n: nat, i: int)
    requires n <= s.newLen && (s.changed || s.oldLen == s.newLen) && UsedA(s, n) <= i
    ensures Image([s] + a', i) == Shift(Image(RestA(s, n) + a', i - UsedA(s, n)), n)
  {
    ImageCons(s, a', i);
    if n == s.newLen {
      assert RestA(s, n) + a' == a';
    } else {
      ImageCons(RestA(s, n)[0], a', i - UsedA(s, n));
    }
  }

  lemma RestSums(s: Span, t: Span, n: nat, a': seq<Span>, c': seq<Span>)
    requires Meet(s, t, n) && Sound(a') && Sound(c')
    ensures Sound(RestA(s, n) + a') && Sound(RestC(t, n) + c')
    ensures SumOld([s] + a') == UsedA(s, n) + SumOld(RestA(s, n) + a')
    ensures SumNew([s] + a') == n + SumNew(RestA(s, n) + a')
    ensures SumOld([t] + c') == n + SumOld(RestC(t, n) + c')
    ensures SumNew([t] + c') == UsedC(t, n) + SumNew(RestC(t, n) + c')
  {
    hide SumOld, SumNew;
    SumsCons(s, a');
    SumsCons(t, c');
    if n == s.newLen { assert RestA(s, n) + a' == a'; } else { SumsCons(RestA(s, n)[0], a'); }
    if n == t.oldLen { assert RestC(t, n) + c' == c'; } else { SumsCons(RestC(t, n)[0], c'); }
  }

  /** Past the common units, both sides read on in what remains. */
  lemma BeyondStep(s: Span, a': seq<Span>, t: Span, c': seq<Span>, n: nat, i: int)
    requires Meet(s, t, n) && Sound(RestA(s, n) + a') && UsedA(s, n) <= i
    ensures Through([s] + a', [t] + c', i)
         == Shift(Through(RestA(s, n) + a', RestC(t, n) + c', i - UsedA(s, n)), UsedC(t, n))
  {
    var a'' := RestA(s, n) + a';
    ImageRestA(s, a', n, i);
    ImageRange(a'', i - UsedA(s, n));
    hide SumOld, SumNew, Image, RestA, RestC, Sound;
    var k := Image(a'', i - UsedA(s, n));
    if k.Some? { ImageRestC(t, c', n, k.value); }
  }

  /** No text survives where either log has a change. */
  lemma ChangeStepAt(s: Span, a': seq<Span>, t: Span, c': seq<Span>, n: nat, i: int)
    requires Meet(s, t, n) && (s.changed || t.changed) && Sound(RestA(s, n) + a') && 0 <= i
    ensures ConsumesAt([s] + a', [t] + c', UsedA(s, n), UsedC(t, n), RestA(s, n) + a', RestC(t, n) + c', i)
  {
    hide SumOld, SumNew, Image, RestA, RestC, Sound;
    if i < UsedA(s, n) {
      ImageCons(s, a', i);
      if i < n { ImageCons(t, c', i); }
    } else {
      BeyondStep(s, a', t, c', n, i);
    }
  }

  lemma ChangeStep(s: Span, a': seq<Span>, t: Span, c': seq<Span>, n: nat)
    requires Meet(s, t, n) && (s.changed || t.changed) && Sound(a') && Sound(c')
    ensures Consumes([s] + a', [t] + c', UsedA(s, n), UsedC(t, n), RestA(s, n) + a', RestC(t, n) + c')
  {
    RestSums(s, t, n, a', c');
    hide SumOld, SumNew, RestA, RestC, Sound, UsedA, UsedC, ConsumesAt, Meet;
    forall i | 0 <= i
      ensures ConsumesAt([s] + a', [t] + c', UsedA(s, n), UsedC(t, n), RestA(s, n) + a', RestC(t, n) + c', i)
    {
      ChangeStepAt(s, a', t, c', n, i);
    }
  }

  /** Text that neither log changes survives. */
  lemma KeepStepAt(s: Span, a': seq<Span>, t: Span, c': seq<Span>, n: nat, i: int)
    requires Meet(s, t, n) && !s.changed && !t.changed && Sound(RestA(s, n) + a') && 0 <= i
    ensures KeepsAt([s] + a', [t] + c', n, RestA(s, n) + a', RestC(t, n) + c', i)
  {
    hide SumOld, SumNew, Image, RestA, RestC, Sound;
    if i < n {
      ImageCons(s, a', i);
      ImageCons(t, c', i);
    } else {
      BeyondStep(s, a', t, c', n, i);
    }
  }

  lemma KeepStep(s: Span, a': seq<Span>, t: Span, c': seq<Span>, n: nat)
    requires Meet(s, t, n) && !s.changed && !t.changed && Sound(a') && Sound(c')
    ensures Keeps([s] + a', [t] + c', n, RestA(s, n) + a', RestC(t, n) + c')
  {
    hide SumOld, SumNew, RestA, RestC, Sound, KeepsAt;
    RestSums(s, t, n, a', c');
    forall i | 0 <= i ensures KeepsAt([s] + a', [t] + c', n, RestA(s, n) + a', RestC(t, n) + c', i) {
      KeepStepAt(s, a', t, c', n, i);
    }
  }

  // ----- cuts

  /** Between spans, and inside an unchanged one, the log is cut cleanly. */
  lemma CleanCut(ss: seq<Span>, k: int, head: seq<Span>)
    requires 0 <= k <= |ss|
    requires || head == []
             || (|head| == 1 && 0 < k && head[0] == ss[k - 1])
             || (|head| == 1 && 0 < k && !head[0].changed && !ss[k - 1].changed && ss[k - 1].oldLen == ss[k - 1].newLen
                 && head[0].oldLen == head[0].newLen <= ss[k - 1].oldLen)
    ensures AtCut(ss, head + ss[k..])
  {
    hide AtCut;
    if head == [] {
      assert head + ss[k..] == ss[k..];
      CutBetween(ss, k);
    } else {
      assert head == [head[0]];
      CutInside(ss, k, head[0]);
    }
  }

  lemma CutBetween(ss: seq<Span>, k: int)
    requires 0 <= k <= |ss|
    ensures AtCut(ss, ss[k..])
  {
    assert ss == ss[..k] + ss[k..];
    SumsAppend(ss[..k], ss[k..]);
    assert CutAt(ss, k, 0, SumOld(ss) - SumOld(ss[k..]), SumNew(ss) - SumNew(ss[k..]));
  }

  lemma CutInside(ss: seq<Span>, k: int, h: Span)
    requires 0 < k <= |ss|
    requires || h == ss[k - 1]
             || (!h.changed && !ss[k - 1].changed && ss[k - 1].oldLen == ss[k - 1].newLen
                 && h.oldLen == h.newLen <= ss[k - 1].oldLen)
    ensures AtCut(ss, [h] + ss[k..])
  {
    assert ss == ss[..k] + ss[k..];
    SumsAppend(ss[..k], ss[k..]);
    SumsStep(ss, k - 1);
    SumsCons(h, ss[k..]);
    hide SumOld, SumNew;
    var rest := [h] + ss[k..];
    assert CutAt(ss, k - 1, ss[k - 1].oldLen - h.oldLen, SumOld(ss) - SumOld(rest), SumNew(ss) - SumNew(rest));
  }

  // ----- the merge loop's variables

  /** The local variables of the merge loop. */
  datatype MergeVars = MergeVars(aLength: nat, abLength: nat, bcLength: nat, cLength: nat, pa: nat, pc: nat)

  /** Of `ab`, the spans from `k` on are still to be fetched; before them comes what is left of the current one. */
  ghost predicate SideA(ss: seq<Span>, k: int, cur: Span, aLength: nat, abLength: nat, rest: seq<Span>) {
    && 0 <= k <= |ss|
    && rest == (if abLength > 0 then [Span(cur.changed, aLength, abLength)] else []) + ss[k..]
    && (abLength > 0 ==>
          && k > 0 && cur == ss[k - 1]
          && (if cur.changed
              then (aLength == cur.oldLen && abLength == cur.newLen) || (aLength == 0 && abLength < cur.newLen)
              else aLength == abLength <= cur.oldLen))
  }

  ghost predicate SideC(ss: seq<Span>, k: int, cur: Span, bcLength: nat, cLength: nat, rest: seq<Span>) {
    && 0 <= k <= |ss|
    && rest == (if bcLength > 0 then [Span(cur.changed, bcLength, cLength)] else []) + ss[k..]
    && (bcLength > 0 ==>
          && k > 0 && cur == ss[k - 1]
          && (if cur.changed
              then (bcLength == cur.oldLen && cLength == cur.newLen) || (bcLength < cur.oldLen && cLength == 0)
              else bcLength == cLength <= cur.oldLen))
  }

  /** The variables, the fetched spans and the merging state belong together. */
  ghost predicate Linked(v: MergeVars, m: Merging, ka: int, curA: Span, kc: int, curC: Span) {
    && v.pa == m.pa && v.pc == m.pc
    && Sound(m.ab) && Sound(m.bc)
    && SideA(m.ab, ka, curA, v.aLength, v.abLength, m.restA)
    && SideC(m.bc, kc, curC, v.bcLength, v.cLength, m.restC)
  }

  lemma SideACut(ss: seq<Span>, k: int, cur: Span, aLength: nat, abLength: nat, rest: seq<Span>)
    requires Sound(ss) && SideA(ss, k, cur, aLength, abLength, rest)
    requires abLength == 0 || !cur.changed || abLength == cur.newLen
    ensures AtCut(ss, rest)
  {
    hide AtCut, SumOld, SumNew;
    CleanCut(ss, k, if abLength > 0 then [Span(cur.changed, aLength, abLength)] else []);
  }

  lemma SideCCut(ss: seq<Span>, k: int, cur: Span, bcLength: nat, cLength: nat, rest: seq<Span>)
    requires Sound(ss) && SideC(ss, k, cur, bcLength, cLength, rest)
    requires bcLength == 0 || !cur.changed || bcLength == cur.oldLen
    ensures AtCut(ss, rest)
  {
    hide AtCut, SumOld, SumNew;
    CleanCut(ss, k, if bcLength > 0 then [Span(cur.changed, bcLength, cLength)] else []);
  }

  lemma SideADrop(ss: seq<Span>, k: int, cur: Span, aLength: nat, abLength: nat, rest: seq<Span>, n: nat, a': nat)
    requires Sound(ss) && SideA(ss, k, cur, aLength, abLength, rest) && 0 < n <= abLength
    requires n < abLength ==> a' == if cur.changed then 0 else abLength - n
    ensures SideA(ss, k, cur, a', abLength - n, RestA(Span(cur.changed, aLength, abLength), n) + ss[k..])
  {
  }

  lemma SideCDrop(ss: seq<Span>, k: int, cur: Span, bcLength: nat, cLength: nat, rest: seq<Span>, n: nat, c': nat)
    requires Sound(ss) && SideC(ss, k, cur, bcLength, cLength, rest) && 0 < n <= bcLength
    requires n < bcLength ==> c' == if cur.changed then 0 else bcLength - n
    ensures SideC(ss, k, cur, bcLength - n, c', RestC(Span(cur.changed, bcLength, cLength), n) + ss[k..])
  {
  }

  lemma SoundSuffix(ss: seq<Span>, k: nat)
    requires Sound(ss) && k <= |ss|
    ensures Sound(ss[k..])
  {
  }

  /** Consuming the common units of the two current spans, at least one of them a change. */
  lemma ConsumeCurrent(v: MergeVars, m: Merging, ka: int, curA: Span, kc: int, curC: Span, n: nat) returns (m': Merging)
    requires Inv(m) && Linked(v, m, ka, curA, kc, curC) && v.abLength > 0 && v.bcLength > 0
    requires n == (if v.abLength <= v.bcLength then v.abLength else v.bcLength) && (curA.changed || curC.changed)
    ensures Inv(m') && m'.ab == m.ab && m'.bc == m.bc && m'.out == m.out
    ensures m'.pa == m.pa + (if curA.changed then v.aLength else n)
    ensures m'.pc == m.pc + (if curC.changed then v.cLength else n)
    ensures m'.restA == RestA(Span(curA.changed, v.aLength, v.abLength), n) + m.ab[ka..]
    ensures m'.restC == RestC(Span(curC.changed, v.bcLength, v.cLength), n) + m.bc[kc..]
    ensures m'.y0 == m.y0 && PlaceB(m') == PlaceB(m) + n
  {
    var s, t := Span(curA.changed, v.aLength, v.abLength), Span(curC.changed, v.bcLength, v.cLength);
    hide Inv, RestA, RestC, PlaceB;
    assert Meet(s, t, n);
    hide SideA, SideC;
    ConsumedInv(m, ka, kc, s, t, n);
    m' := m.(pa := m.pa + UsedA(s, n), pc := m.pc + UsedC(t, n),
             restA := RestA(s, n) + m.ab[ka..], restC := RestC(t, n) + m.bc[kc..]);
  }

  lemma ConsumedInv(m: Merging, ka: int, kc: int, s: Span, t: Span, n: nat)
    requires Inv(m) && Sound(m.ab) && Sound(m.bc) && 0 <= ka <= |m.ab| && 0 <= kc <= |m.bc|
    requires m.restA == [s] + m.ab[ka..] && m.restC == [t] + m.bc[kc..] && Meet(s, t, n) && (s.changed || t.changed)
    ensures var m' := m.(pa := m.pa + UsedA(s, n), pc := m.pc + UsedC(t, n),
                         restA := RestA(s, n) + m.ab[ka..], restC := RestC(t, n) + m.bc[kc..]);
            Inv(m') && PlaceB(m') == PlaceB(m) + n
  {
    SoundSuffix(m.ab, ka);
    SoundSuffix(m.bc, kc);
    RestSums(s, t, n, m.ab[ka..], m.bc[kc..]);
    hide Maps, Borders, AllTight, Consumes, Totals, Sound, RestA, RestC, SumOld, SumNew;
    ChangeStep(s, m.ab[ka..], t, m.bc[kc..], n);
    Pend(m, UsedA(s, n), UsedC(t, n), RestA(s, n) + m.ab[ka..], RestC(t, n) + m.bc[kc..]);
  }

  /** Keeping the common units of two unchanged current spans. */
  lemma KeepCurrent(v: MergeVars, m: Merging, ka: int, curA: Span, kc: int, curC: Span, n: nat)
    requires Inv(m) && Linked(v, m, ka, curA, kc, curC) && v.abLength > 0 && v.bcLength > 0 && v.pa == v.pc == 0
    requires n == (if v.aLength <= v.cLength then v.aLength else v.cLength) && !curA.changed && !curC.changed
    ensures 0 < n && n <= SumOld(m.ab)
    ensures var v' := v.(aLength := v.aLength - n, abLength := v.aLength - n,
                         bcLength := v.cLength - n, cLength := v.cLength - n);
            var m' := m.(out := m.out + [Span(false, n, n)],
                         restA := RestA(Span(false, v.aLength, v.abLength), n) + m.ab[ka..],
                         restC := RestC(Span(false, v.bcLength, v.cLength), n) + m.bc[kc..], y0 := m.y0 + n);
            Inv(m') && Linked(v', m', ka, curA, kc, curC) && PlaceB(m') == PlaceB(m) + n
  {
    hide Maps, Borders, AllTight, AtCut, SumOld, SumNew, Keeps, Sound;
    var s, t := Span(false, v.aLength, v.abLength), Span(false, v.bcLength, v.cLength);
    SoundSuffix(m.ab, ka);
    SoundSuffix(m.bc, kc);
    RestSums(s, t, n, m.ab[ka..], m.bc[kc..]);
    KeepStep(s, m.ab[ka..], t, m.bc[kc..], n);
    SideADrop(m.ab, ka, curA, v.aLength, v.abLength, m.restA, n, v.aLength - n);
    SideCDrop(m.bc, kc, curC, v.bcLength, v.cLength, m.restC, n, v.cLength - n);
    var a', c' := RestA(s, n) + m.ab[ka..], RestC(t, n) + m.bc[kc..];
    SideACut(m.ab, ka, curA, v.aLength - n, v.abLength - n, a');
    SideCCut(m.bc, kc, curC, v.bcLength - n, v.cLength - n, c');
    hide RestA, RestC, SideA, SideC;
    EmitUnchanged(m, n, a', c');
  }

  lemma SideCNext(ss: seq<Span>, k: int, cur: Span, c: nat, rest: seq<Span>)
    requires Sound(ss) && SideC(ss, k, cur, 0, c, rest) && k < |ss|
    ensures rest == [ss[k]] + ss[k + 1..] && (ss[k].oldLen == 0 ==> ss[k].changed)
    ensures SideC(ss, k + 1, ss[k], ss[k].oldLen, ss[k].newLen, if ss[k].oldLen == 0 then ss[k + 1..] else rest)
  {
    assert [] + ss[k + 1..] == ss[k + 1..];
    assert ss[k..] == [ss[k]] + ss[k + 1..];
  }

  lemma SideANext(ss: seq<Span>, k: int, cur: Span, a: nat, rest: seq<Span>)
    requires Sound(ss) && SideA(ss, k, cur, a, 0, rest) && k < |ss|
    ensures rest == [ss[k]] + ss[k + 1..] && (ss[k].newLen == 0 ==> ss[k].changed)
    ensures SideA(ss, k + 1, ss[k], ss[k].oldLen, ss[k].newLen, if ss[k].newLen == 0 then ss[k + 1..] else rest)
  {
    assert [] + ss[k + 1..] == ss[k + 1..];
    assert ss[k..] == [ss[k]] + ss[k + 1..];
  }

  lemma LinkedStart(ab: seq<Span>, bc: seq<Span>, curA: Span, curC: Span)
    requires Sound(ab) && Sound(bc)
    ensures Linked(MergeVars(0, 0, 0, 0, 0, 0), Merging(ab, bc, [], 0, 0, ab, bc, 0), 0, curA, 0, curC)
  {
    assert [] + ab[0..] == ab && [] + bc[0..] == bc;
  }

  /** A used-up edit does not matter. */
  lemma UsedUp(v: MergeVars, m: Merging, ka: int, curA: Span, kc: int, curC: Span, cur: Span)
    requires Linked(v, m, ka, curA, kc, curC)
    ensures v.abLength == 0 ==> Linked(v, m, ka, cur, kc, curC)
    ensures v.bcLength == 0 ==> Linked(v, m, ka, curA, kc, cur)
  {
    hide Sound;
  }

  /** Fetching an edit of bc that is no insertion. */
  lemma FetchedC(v: MergeVars, m: Merging, ka: int, curA: Span, kc: int, curC: Span)
    requires Linked(v, m, ka, curA, kc, curC) && v.bcLength == 0 && kc < |m.bc| && m.bc[kc].oldLen > 0
    ensures Linked(v.(bcLength := m.bc[kc].oldLen, cLength := m.bc[kc].newLen), m, ka, curA, kc + 1, m.bc[kc])
  {
    hide Sound, SideA;
    SideCNext(m.bc, kc, curC, v.cLength, m.restC);
  }

  /** Fetching an insertion consumes it at once. */
  lemma Inserted(v: MergeVars, m: Merging, ka: int, curA: Span, kc: int, curC: Span) returns (m': Merging)
    requires Inv(m) && Linked(v, m, ka, curA, kc, curC) && v.bcLength == 0 && kc < |m.bc| && m.bc[kc].oldLen == 0
    ensures m' == m.(pc := m.pc + m.bc[kc].newLen, restC := m.bc[kc + 1..]) && |m'.restC| < |m.restC|
    ensures Inv(m')
    ensures Linked(v.(bcLength := 0, cLength := m.bc[kc].newLen, pc := v.pc + m.bc[kc].newLen), m',
                   ka, curA, kc + 1, m.bc[kc])
  {
    hide Inv, Sound, SideA;
    SideCNext(m.bc, kc, curC, v.cLength, m.restC);
    InsertedInv(m, kc);
    m' := m.(pc := m.pc + m.bc[kc].newLen, restC := m.bc[kc + 1..]);
  }

  lemma InsertedInv(m: Merging, k: int)
    requires Inv(m) && Sound(m.bc) && 0 <= k < |m.bc| && m.bc[k].changed && m.bc[k].oldLen == 0
    requires m.restC == [m.bc[k]] + m.bc[k + 1..]
    ensures Inv(m.(pc := m.pc + m.bc[k].newLen, restC := m.bc[k + 1..]))
  {
    hide Maps, Borders, AllTight, Consumes, Totals, Sound, SumOld, SumNew;
    SoundSuffix(m.bc, k + 1);
    InsertStep(m.restA, m.bc[k], m.bc[k + 1..]);
    Pend(m, 0, m.bc[k].newLen, m.restA, m.bc[k + 1..]);
  }

  /** Fetching an edit of ab that is no deletion. */
  lemma FetchedA(v: MergeVars, m: Merging, ka: int, curA: Span, kc: int, curC: Span)
    requires Linked(v, m, ka, curA, kc, curC) && v.abLength == 0 && ka < |m.ab| && m.ab[ka].newLen > 0
    ensures Linked(v.(aLength := m.ab[ka].oldLen, abLength := m.ab[ka].newLen), m, ka + 1, m.ab[ka], kc, curC)
  {
    hide Sound, SideC;
    SideANext(m.ab, ka, curA, v.aLength, m.restA);
  }

  /** Fetching a deletion consumes it at once. */
  lemma Deleted(v: MergeVars, m: Merging, ka: int, curA: Span, kc: int, curC: Span) returns (m': Merging)
    requires Inv(m) && Linked(v, m, ka, curA, kc, curC) && v.abLength == 0 && ka < |m.ab| && m.ab[ka].newLen == 0
    ensures m' == m.(pa := m.pa + m.ab[ka].oldLen, restA := m.ab[ka + 1..]) && |m'.restA| < |m.restA|
    ensures Inv(m')
    ensures Linked(v.(aLength := m.ab[ka].oldLen, abLength := 0, pa := v.pa + m.ab[ka].oldLen), m',
                   ka + 1, m.ab[ka], kc, curC)
  {
    hide Inv, Sound, SideC;
    SideANext(m.ab, ka, curA, v.aLength, m.restA);
    DeletedInv(m, ka);
    m' := m.(pa := m.pa + m.ab[ka].oldLen, restA := m.ab[ka + 1..]);
  }

  lemma DeletedInv(m: Merging, k: int)
    requires Inv(m) && Sound(m.ab) && 0 <= k < |m.ab| && m.ab[k].changed && m.ab[k].newLen == 0
    requires m.restA == [m.ab[k]] + m.ab[k + 1..]
    ensures Inv(m.(pa := m.pa + m.ab[k].oldLen, restA := m.ab[k + 1..]))
  {
    hide Maps, Borders, AllTight, Consumes, Totals, Sound, SumOld, SumNew;
    SoundSuffix(m.ab, k + 1);
    DeleteStep(m.ab[k], m.ab[k + 1..], m.restC);
    Pend(m, m.ab[k].oldLen, 0, m.ab[k + 1..], m.restC);
  }

  /** Where one log is used up, the lengths of string b agree exactly if the other one is, too. */
  lemma OneDone(v: MergeVars, m: Merging, ka: int, curA: Span, kc: int, curC: Span)
    requires Inv(m) && Linked(v, m, ka, curA, kc, curC)
    ensures v.abLength == 0 && ka == |m.ab| ==> m.restA == []
    ensures v.bcLength == 0 && kc == |m.bc| ==> m.restC == []
    ensures v.abLength == 0 && ka == |m.ab| && v.bcLength > 0 ==> SumNew(m.ab) != SumOld(m.bc)
    ensures v.bcLength == 0 && kc == |m.bc| && v.abLength > 0 ==> SumNew(m.ab) != SumOld(m.bc)
    ensures m.restA == m.restC == [] ==> SumNew(m.ab) == SumOld(m.bc)
  {
    hide Maps, Borders, AllTight, Sound;
    SumsEmpty();
    if v.abLength > 0 { SumsCons(Span(curA.changed, v.aLength, v.abLength), m.ab[ka..]); }
    if v.bcLength > 0 { SumsCons(Span(curC.changed, v.bcLength, v.cLength), m.bc[kc..]); }
  }

  // ----- the result

  /**
   Log `ac` does what `ab` and then `bc` do: the totals agree, text of string a that survives into string c is
   recorded as unchanged at its place there and no other text is, every border between recorded edits is a
   common cut of the two logs, and no recorded change could be split at another common cut.
   */
  ghost predicate Composes(ab: seq<Span>, bc: seq<Span>, ac: seq<Span>) {
    && SumNew(ab) == SumOld(bc) && SumOld(ac) == SumOld(ab) && SumNew(ac) == SumNew(bc)
    && (forall i :: 0 <= i ==> Image(ac, i) == Through(ab, bc, i))
    && Borders(ab, bc, ac) && AllTight(ab, bc, ac)
  }

  /** A fine log without adjacent unchanged spans that is a composition of `ab` and `bc`. */
  ghost predicate Composition(ab: seq<Span>, bc: seq<Span>, ac: seq<Span>) {
    Sound(ac) && Canonical(ac, false) && Composes(ab, bc, ac)
  }

  /** Log `after` is log `before` with the composition of `ab` and `bc` recorded behind it. */
  ghost predicate AppendsComposition(before: seq<Span>, after: seq<Span>, ab: seq<Span>, bc: seq<Span>) {
    exists ac :: Composition(ab, bc, ac) && after == PushAll(before, ac, false)
  }

  /** Log `after` is log `before` with edits behind it that start and end at common cuts of `ab` and `bc`. */
  ghost predicate AppendsCuts(before: seq<Span>, after: seq<Span>, ab: seq<Span>, bc: seq<Span>) {
    exists out :: Borders(ab, bc, out) && after == PushAll(before, out, false)
  }

  /** From `delta` on, the difference of the lengths stays in range while `out` is recorded. */
  ghost predicate DeltasFit(delta: int, out: seq<Span>) {
    forall t :: 0 <= t <= |out| ==> InInt32(delta + SumNew(out[..t]) - SumOld(out[..t]))
  }

  ghost predicate CompositionFits(delta: int, ab: seq<Span>, bc: seq<Span>) {
    exists ac :: Composition(ab, bc, ac) && DeltasFit(delta, ac)
  }

  /** While the composition is recorded, the difference of the lengths goes out of range. */
  ghost predicate CompositionOverflows(delta: int, ab: seq<Span>, bc: seq<Span>) {
    exists ac :: Composition(ab, bc, ac) && !DeltasFit(delta, ac)
  }

  /** The composition takes no more than `room`, and the difference of the lengths stays in range. */
  ghost predicate CompositionHasRoom(delta: int, room: int, ab: seq<Span>, bc: seq<Span>) {
    exists ac :: Composition(ab, bc, ac) && DeltasFit(delta, ac) && Bulk(ac) <= room
  }

  /** What has been taken is no more than the composition takes. */
  ghost predicate CompositionFills(taken: int, ab: seq<Span>, bc: seq<Span>) {
    exists ac :: Composition(ab, bc, ac) && taken <= Bulk(ac)
  }

  /** At some common cut the difference of the lengths is out of range. */
  ghost predicate CutOverflows(delta: int, ab: seq<Span>, bc: seq<Span>) {
    exists x, z :: CommonCut(ab, bc, x, z) && !InInt32(delta + z - x)
  }

  lemma DeltasFitSnoc(delta: int, out: seq<Span>, s: Span)
    ensures DeltasFit(delta, out + [s]) <==>
              DeltasFit(delta, out) && InInt32(delta + SumNew(out) + s.newLen - SumOld(out) - s.oldLen)
  {
    var out' := out + [s];
    SumsSnoc(out, s);
    hide SumOld, SumNew, InInt32;
    assert out'[..|out'|] == out';
    assert forall t :: 0 <= t <= |out| ==> out'[..t] == out[..t];
    if DeltasFit(delta, out') {
      forall t | 0 <= t <= |out| ensures InInt32(delta + SumNew(out[..t]) - SumOld(out[..t])) {
        assert out'[..t] == out[..t];
      }
      assert InInt32(delta + SumNew(out'[..|out'|]) - SumOld(out'[..|out'|]));
    }
  }

  /** Joining unchanged spans does not matter for the difference of the lengths. */
  lemma {:induction false} DeltasFitNorm(delta: int, out: seq<Span>)
    requires Sound(out)
    ensures DeltasFit(delta, Norm(out, false)) <==> DeltasFit(delta, out)
  {
    hide InInt32;
    if out != [] {
      var front, s := out[..|out| - 1], out[|out| - 1];
      assert out == front + [s];
      DeltasFitNorm(delta, front);
      DeltasFitSnoc(delta, front, s);
      SumsPushAll([], front, false);
      SumsEmpty();
      PushAllSound([], front, false);
      DeltasFitPush(delta, Norm(front, false), s);
    }
  }

  lemma DeltasFitPush(delta: int, ss: seq<Span>, s: Span)
    requires Sound(ss) && Sound([s])
    ensures DeltasFit(delta, Push(ss, s, false)) <==>
              DeltasFit(delta, ss) && InInt32(delta + SumNew(ss) + s.newLen - SumOld(ss) - s.oldLen)
  {
    hide DeltasFit, SumOld, SumNew, InInt32;
    DeltasFitSnoc(delta, ss, s);
    if ss != [] && Mergeable(ss[|ss| - 1], s, false) {
      var front, last := ss[..|ss| - 1], ss[|ss| - 1];
      assert ss == front + [last] && [s][0] == s;
      DeltasFitJoin(delta, front, last, s);
    }
  }

  lemma DeltasFitJoin(delta: int, front: seq<Span>, last: Span, s: Span)
    requires last.oldLen == last.newLen && s.oldLen == s.newLen
    ensures DeltasFit(delta, front + [Join(last, s)]) <==>
              DeltasFit(delta, front + [last])
              && InInt32(delta + SumNew(front + [last]) + s.newLen - SumOld(front + [last]) - s.oldLen)
  {
    hide DeltasFit, SumOld, SumNew, InInt32;
    SumsSnoc(front, last);
    DeltasFitSnoc(delta, front, last);
    DeltasFitSnoc(delta, front, Join(last, s));
  }

  /** Recording a log records what its spans came from. */
  lemma {:induction false} PushAllNorm(before: seq<Span>, out: seq<Span>)
    ensures PushAll(before, Norm(out, false), false) == PushAll(before, out, false)
  {
    if out != [] {
      var front, s := out[..|out| - 1], out[|out| - 1];
      PushAllNorm(before, front);
      PushAllPush(before, Norm(front, false), s);
    }
  }

  lemma PushAllPush(before: seq<Span>, ss: seq<Span>, s: Span)
    ensures PushAll(before, Push(ss, s, false), false) == Push(PushAll(before, ss, false), s, false)
  {
    PushAllSnoc(before, ss, s);
    if ss != [] && Mergeable(ss[|ss| - 1], s, false) {
      var front, last := ss[..|ss| - 1], ss[|ss| - 1];
      PushTwice(PushAll(before, front, false), last, s, false);
      PushAllSnoc(before, front, Join(last, s));
    }
  }

  /** Changes are never joined. */
  lemma {:induction false} ChangesNorm(out: seq<Span>, t: int) returns (r: int)
    requires 0 <= t < |Norm(out, false)| && Norm(out, false)[t].changed
    ensures 0 <= r < |out| && out[r] == Norm(out, false)[t]
    ensures SumOld(Norm(out, false)[..t]) == SumOld(out[..r]) && SumNew(Norm(out, false)[..t]) == SumNew(out[..r])
  {
    var after := Norm(out, false);
    var front := out[..|out| - 1];
    var p := Norm(front, false);
    var s := out[|out| - 1];
    if t == |after| - 1 && after[t] == s && after == p + [s] {
      r := |out| - 1;
      assert after[..t] == p;
      SumsPushAll([], front, false);
    } else {
      assert t < |p| && p[t] == after[t] && after[..t] == p[..t];
      r := ChangesNorm(front, t);
      assert out[..r] == front[..r];
    }
  }

  /** Joining adjacent unchanged spans only removes borders. */
  lemma {:induction false} BordersNorm(out: seq<Span>, t: int) returns (r: int)
    requires 0 <= t <= |Norm(out, false)|
    ensures 0 <= r <= |out|
    ensures SumOld(Norm(out, false)[..t]) == SumOld(out[..r]) && SumNew(Norm(out, false)[..t]) == SumNew(out[..r])
  {
    var after := Norm(out, false);
    if t == |after| {
      r := |out|;
      assert after[..t] == after && out[..r] == out;
      SumsPushAll([], out, false);
    } else {
      assert out != [];
      var front := out[..|out| - 1];
      r := BordersNorm(front, t);
      assert after[..t] == Norm(front, false)[..t];
      assert out[..r] == front[..r];
    }
  }

  lemma NormBorders(ab: seq<Span>, bc: seq<Span>, out: seq<Span>)
    requires Borders(ab, bc, out) && AllTight(ab, bc, out)
    ensures Borders(ab, bc, Norm(out, false)) && AllTight(ab, bc, Norm(out, false))
  {
    hide CommonCut, Tight, SumOld, SumNew, PushAll;
    var ac := Norm(out, false);
    forall t | 0 <= t <= |ac| ensures CommonCut(ab, bc, SumOld(ac[..t]), SumNew(ac[..t])) {
      var r := BordersNorm(out, t);
    }
    forall t | 0 <= t < |ac| && ac[t].changed ensures TightAt(ab, bc, ac, t) {
      var r := ChangesNorm(out, t);
      assert TightAt(ab, bc, out, r);
    }
  }

  /** Where both logs are used up and nothing is pending, what has been recorded is their composition. */
  lemma MergeEnd(m: Merging)
    requires Inv(m) && m.restA == m.restC == [] && m.pa == m.pc == 0
    ensures Composition(m.ab, m.bc, Norm(m.out, false))
  {
    hide Image, CommonCut, Tight, Push, SumOld, SumNew, Sound, Borders, AllTight;
    var ac := Norm(m.out, false);
    SumsEmpty();
    SumsPushAll([], m.out, false);
    NormBorders(m.ab, m.bc, m.out);
    NormSound(m.out);
    forall i | 0 <= i ensures Image(ac, i) == Through(m.ab, m.bc, i) {
      ImagePushAll([], m.out, i);
      ImageAppend([], m.out, i);
      assert MapsAt(m, i);
      if i >= SumOld(m.out) {
        ImageBeyond(m.out, i);
        ImageBeyond([], i - SumOld(m.out));
      }
    }
  }

  lemma NormSound(out: seq<Span>)
    requires Sound(out)
    ensures Sound(Norm(out, false)) && Canonical(Norm(out, false), false)
  {
    PushAllSound([], out, false);
    PushAllCanonical([], out, false);
  }

  lemma OutSound(m: Merging)
    requires Inv(m)
    ensures Sound(m.out) && Borders(m.ab, m.bc, m.out)
  {
  }

  /** What stops the recording of `out` stops the recording of the log that it makes. */
  lemma MergeEndDeltas(m: Merging, delta: int, before: seq<Span>, taken: int)
    requires Inv(m) && m.restA == m.restC == [] && m.pa == m.pc == 0
    ensures if DeltasFit(delta, m.out) then CompositionFits(delta, m.ab, m.bc)
            else CompositionOverflows(delta, m.ab, m.bc)
    ensures AppendsComposition(before, PushAll(before, m.out, false), m.ab, m.bc)
    ensures taken <= Bulk(m.out) ==> CompositionFills(taken, m.ab, m.bc)
  {
    hide Composition, DeltasFit, Inv, Norm, PushAll, Bulk, Sound;
    MergeEnd(m);
    OutSound(m);
    DeltasFitNorm(delta, m.out);
    PushAllNorm(before, m.out);
    BulkNorm(m.out);
    assert Composition(m.ab, m.bc, Norm(m.out, false));
  }

  lemma OverflowAtCut(ab: seq<Span>, bc: seq<Span>, out: seq<Span>, delta: int)
    requires Borders(ab, bc, out) && !DeltasFit(delta, out)
    ensures CutOverflows(delta, ab, bc)
  {
    hide SumOld, SumNew, CommonCut, InInt32;
    var t :| 0 <= t <= |out| && !InInt32(delta + SumNew(out[..t]) - SumOld(out[..t]));
    assert CommonCut(ab, bc, SumOld(out[..t]), SumNew(out[..t]));
  }

  /** Text unit i of the old string is unchanged text unit j of the new one. */
  ghost predicate SameText(ss: seq<Span>, i: int, j: int) {
    exists k :: 0 <= k < |ss| && SameTextIn(ss, k, i, j)
  }

  ghost predicate SameTextIn(ss: seq<Span>, k: int, i: int, j: int)
    requires 0 <= k < |ss|
  {
    && !ss[k].changed
    && SumOld(ss[..k]) <= i < SumOld(ss[..k]) + ss[k].oldLen
    && j - SumNew(ss[..k]) == i - SumOld(ss[..k])
  }

  lemma {:induction false} SameTextImage(ss: seq<Span>, i: int, k: int, j: int)
    requires 0 <= k < |ss| && SameTextIn(ss, k, i, j)
    ensures Image(ss, i) == Some(j)
  {
    assert ss == ss[..k] + ([ss[k]] + ss[k + 1..]);
    ImageAppend(ss[..k], [ss[k]] + ss[k + 1..], i);
    ImageCons(ss[k], ss[k + 1..], i - SumOld(ss[..k]));
  }

  lemma {:induction false} ImageSameText(ss: seq<Span>, i: int) returns (k: int)
    requires Image(ss, i).Some?
    ensures 0 <= k < |ss| && SameTextIn(ss, k, i, Image(ss, i).value)
  {
    if i < ss[0].oldLen {
      k := 0;
    } else {
      var k' := ImageSameText(ss[1..], i - ss[0].oldLen);
      k := k' + 1;
      assert ss[..k] == [ss[0]] + ss[1..][..k'];
      SumsCons(ss[0], ss[1..][..k']);
    }
  }

  lemma SameTextIffImage(ss: seq<Span>, i: int, j: int)
    ensures SameText(ss, i, j) <==> Image(ss, i) == Some(j)
  {
    if SameText(ss, i, j) {
      var k :| 0 <= k < |ss| && SameTextIn(ss, k, i, j);
      SameTextImage(ss, i, k, j);
    }
    if Image(ss, i) == Some(j) {
      var k := ImageSameText(ss, i);
    }
  }

  lemma ComposedImage(ac: seq<Span>, ab: seq<Span>, bc: seq<Span>, i: int)
    requires Composes(ab, bc, ac) && 0 <= i
    ensures Image(ac, i) == Through(ab, bc, i)
  {
    hide Borders, AllTight, Image, SumOld, SumNew;
  }

  /** Text unit a_i is unchanged text unit c_j, by way of some b_k. */
  ghost predicate SameTextThrough(ab: seq<Span>, bc: seq<Span>, i: int, j: int) {
    exists k :: SameText(ab, i, k) && SameText(bc, k, j)
  }

  /** A composition keeps text exactly where both logs do. */
  lemma ComposedText(ac: seq<Span>, ab: seq<Span>, bc: seq<Span>, i: int, j: int)
    requires Composes(ab, bc, ac)
    ensures SameText(ac, i, j) <==> SameTextThrough(ab, bc, i, j)
  {
    hide SameText, Composes;
    SumsEmpty();
    SameTextIffImage(ac, i, j);
    forall k ensures SameText(ab, i, k) <==> Image(ab, i) == Some(k) { SameTextIffImage(ab, i, k); }
    forall k ensures SameText(bc, k, j) <==> Image(bc, k) == Some(j) { SameTextIffImage(bc, k, j); }
    if 0 <= i {
      ComposedImage(ac, ab, bc, i);
      if Image(ac, i) == Some(j) {
        var k := Image(ab, i).value;
        assert SameText(ab, i, k) && SameText(bc, k, j);
      }
    }
  }

  lemma SameTextAt(ss: seq<Span>, i: int, j: int)
    ensures SameText(ss, i, j) ==> 0 <= i
  {
  }

  lemma SameTextPushAll(before: seq<Span>, more: seq<Span>, i: int, j: int)
    requires Sound(before) && Sound(more)
    ensures SameText(PushAll(before, more, false), i, j) <==>
              if i < SumOld(before) then SameText(before, i, j)
              else SameText(more, i - SumOld(before), j - SumNew(before))
  {
    hide SameText, SumOld, SumNew, Image, PushAll, Sound;
    if i < 0 {
      SameTextAt(before, i, j);
      SameTextAt(PushAll(before, more, false), i, j);
    } else {
      SameTextIffImage(PushAll(before, more, false), i, j);
      SameTextIffImage(before, i, j);
      SameTextIffImage(more, i - SumOld(before), j - SumNew(before));
      ImagePushAll(before, more, i);
      ImageAppend(before, more, i);
    }
  }

  /**
   After a merge into a log, text that the log had recorded before is as it was; behind it, text is kept
   exactly where both merged logs keep it.
   */
  lemma MergedText(before: seq<Span>, after: seq<Span>, ab: seq<Span>, bc: seq<Span>, i: int, j: int)
    requires Sound(before) && AppendsComposition(before, after, ab, bc)
    ensures SameText(after, i, j) <==>
              if i < SumOld(before) then SameText(before, i, j)
              else SameTextThrough(ab, bc, i - SumOld(before), j - SumNew(before))
  {
    hide SameText, SameTextThrough, Composes, SumOld, SumNew, Sound, Canonical, PushAll;
    var ac :| Composition(ab, bc, ac) && after == PushAll(before, ac, false);
    ComposedText(ac, ab, bc, i - SumOld(before), j - SumNew(before));
    SameTextPushAll(before, ac, i, j);
  }
}
