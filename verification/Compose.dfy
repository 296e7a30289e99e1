/**
 Composition of edits: string a --(ab)--> string b --(bc)--> string c.

 `Image` says where each unchanged text unit of the old string ends up in the new one;
 composing edits composes these partial maps.  A cut is a pair of positions, one in each
 string, at which the edits fall apart into two independent halves.
 */
module Compose {
  import opened Basics
  import opened Spans

  function Shift(o: Option<int>, d: int): Option<int> {
    if o.Some? then Some(o.value + d) else None
  }

  /** The new index of old text unit `i`, if that text unit is unchanged. */
  function Image(ss: seq<Span>, i: int): Option<int> {
    if ss == [] || i < 0 then None
    else if i < ss[0].oldLen then if ss[0].changed then None else Some(i)
    else Shift(Image(ss[1..], i - ss[0].oldLen), ss[0].newLen)
  }

  /** From string a through string b to string c. */
  function Through(ab: seq<Span>, bc: seq<Span>, i: int): Option<int> {
    var k := Image(ab, i);
    if k.Some? then Image(bc, k.value) else None
  }

  /**
   Source position x and destination position y are on the same border between edits, or at the same place in
   unchanged text.
   */
  ghost predicate CutAt(ss: seq<Span>, k: int, d: int, x: int, y: int) {
    && 0 <= k <= |ss| && 0 <= d
    && x == SumOld(ss[..k]) + d && y == SumNew(ss[..k]) + d
    && (d > 0 ==> k < |ss| && !ss[k].changed && d <= ss[k].oldLen)
  }

  ghost predicate Cut(ss: seq<Span>, x: int, y: int) {
    exists k, d :: CutAt(ss, k, d, x, y)
  }

  /** Position x in string a and z in string c meet at one position in string b. */
  ghost predicate CommonCut(ab: seq<Span>, bc: seq<Span>, x: int, z: int) {
    exists y :: Cut(ab, x, y) && Cut(bc, y, z)
  }

  // ----- Image

  lemma ImageCons(s: Span, rest: seq<Span>, i: int)
    requires 0 <= i
    ensures Image([s] + rest, i) ==
      if i < s.oldLen then if s.changed then None else Some(i)
      else Shift(Image(rest, i - s.oldLen), s.newLen)
  {
    assert ([s] + rest)[1..] == rest;
  }

  lemma SumsCons(s: Span, rest: seq<Span>)
    ensures SumOld([s] + rest) == s.oldLen + SumOld(rest)
    ensures SumNew([s] + rest) == s.newLen + SumNew(rest)
  {
    SumsAppend([s], rest);
    assert [s][..0] == [];
  }

  lemma {:induction false} ImageBeyond(ss: seq<Span>, i: int)
    requires i >= SumOld(ss)
    ensures Image(ss, i) == None
  {
    if ss != [] {
      assert [ss[0]] + ss[1..] == ss;
      SumsCons(ss[0], ss[1..]);
      ImageBeyond(ss[1..], i - ss[0].oldLen);
    }
  }

  lemma {:induction false} ImageRange(ss: seq<Span>, i: int)
    requires Sound(ss)
    ensures Image(ss, i).Some? ==> 0 <= i < SumOld(ss) && 0 <= Image(ss, i).value < SumNew(ss)
  {
    if ss != [] && 0 <= i {
      assert [ss[0]] + ss[1..] == ss;
      SumsCons(ss[0], ss[1..]);
      ImageRange(ss[1..], i - ss[0].oldLen);
    }
  }

  lemma {:induction false} ImageAppend(a: seq<Span>, b: seq<Span>, i: int)
    requires 0 <= i
    ensures Image(a + b, i) ==
      if i < SumOld(a) then Image(a, i) else Shift(Image(b, i - SumOld(a)), SumNew(a))
  {
    if a == [] {
      assert a + b == b;
    } else {
      assert [a[0]] + a[1..] == a;
      SumsCons(a[0], a[1..]);
      assert a + b == [a[0]] + (a[1..] + b);
      ImageCons(a[0], a[1..] + b, i);
      if i >= a[0].oldLen {
        ImageAppend(a[1..], b, i - a[0].oldLen);
      }
    }
  }

  /** Joining spans at fine granularity does not move any text unit. */
  lemma ImagePush(ss: seq<Span>, s: Span, i: int)
    requires 0 <= i && Sound(ss) && Sound([s])
    ensures Image(Push(ss, s, false), i) == Image(ss + [s], i)
  {
    if ss != [] && Mergeable(ss[|ss| - 1], s, false) {
      var front, last := ss[..|ss| - 1], ss[|ss| - 1];
      assert ss + [s] == front + ([last] + [s]);
      ImageAppend(front, [last] + [s], i);
      ImageAppend(front, [Join(last, s)], i);
      assert [s][0] == s;
      ImageTwo(last, s, i - SumOld(front));
    }
  }

  lemma ImageTwo(a: Span, b: Span, i: int)
    requires !a.changed && !b.changed && a.oldLen == a.newLen && b.oldLen == b.newLen
    ensures Image([a] + [b], i) == Image([Join(a, b)], i)
  {
    if 0 <= i {
      ImageCons(a, [b], i);
      assert [Join(a, b)] == [Join(a, b)] + [];
      ImageCons(Join(a, b), [], i);
      if i >= a.oldLen {
        assert [b] == [b] + [];
        ImageCons(b, [], i - a.oldLen);
      }
    }
  }

  lemma SoundParts(ss: seq<Span>)
    requires Sound(ss) && ss != []
    ensures Sound(ss[..|ss| - 1]) && Sound([ss[|ss| - 1]])
  {
  }

  /** What one more span adds depends on what is before it. */
  lemma {:induction false} ImageSnoc(p: seq<Span>, q: seq<Span>, s: Span, i: int)
    requires 0 <= i && Image(p, i) == Image(q, i) && SumOld(p) == SumOld(q) && SumNew(p) == SumNew(q)
    ensures Image(p + [s], i) == Image(q + [s], i)
  {
    hide Image, SumOld, SumNew;
    ImageAppend(p, [s], i);
    ImageAppend(q, [s], i);
  }

  lemma {:induction false} ImagePushAll(ss: seq<Span>, more: seq<Span>, i: int)
    requires 0 <= i && Sound(ss) && Sound(more)
    ensures Image(PushAll(ss, more, false), i) == Image(ss + more, i)
  {
    hide Push, Image, Sound, SumOld, SumNew;
    if more == [] {
      assert ss + more == ss;
    } else {
      var front, s := more[..|more| - 1], more[|more| - 1];
      var p := PushAll(ss, front, false);
      SoundParts(more);
      ImagePushAll(ss, front, i);
      PushAllSound(ss, front, false);
      ImagePush(p, s, i);
      SumsPushAll(ss, front, false);
      SumsAppend(ss, front);
      ImageSnoc(p, ss + front, s, i);
      assert (ss + front) + [s] == ss + more;
    }
  }
}
