/** Where the code points that are segmented come from in the text. */
module CjkPositions {
  import opened Utf16
  import opened CjkMap

  // ----- one stretch of UTF-16

  /**
   In normalized UTF-16 text, each code point is one or two units after the one before it, and is what is encoded
   there.
   */
  lemma {:induction false} ContiguousPositions(r: Range, k: int)
    requires ValidRange(r) && r.source.Contiguous? && r.norm.isNormalized(r.source.units)
    requires 0 <= k < |CodePoints(r)|
    ensures 0 <= CodePoints(r)[k] <= 0x10ffff
    ensures var c, p := Encode16(CodePoints(r)[k]), Position(r, k) - r.start;
            0 <= p && p + |c| <= |r.source.units| && r.source.units[p..p + |c|] == c
            && Position(r, k + 1) == Position(r, k) + |c|
  {
    hide Encode16;
    var s := r.source.units;
    var u := UnitIndex(s, 0, k);
    UnitIndexStep(s, 0, k);
    EncodeAt(s, u);
  }

  // ----- code points with native indexes

  /** No code point is a surrogate, so that none combine. */
  predicate NoSurrogates(chars: seq<Char>) {
    forall k :: 0 <= k < |chars| ==> !(0xd800 <= chars[k].c < 0xe000)
  }

  /** Appending to a string that does not end with a lead surrogate adds one code point at its end. */
  lemma {:induction false} DecodeAppend(s: seq<Unit16>, c: int, i: int)
    requires 0 <= i <= |s| && 0 <= c <= 0x10ffff && !(0xd800 <= c < 0xe000)
    ensures Decode(s + Encode16(c), i) == Decode(s, i) + [c]
    decreases |s| - i
  {
    var t := s + Encode16(c);
    assert t[|s|] == Encode16(c)[0];
    if i == |s| {
      if 0x10000 <= c { assert t[|s| + 1] == Encode16(c)[1]; }
      assert NextIndex(t, i) == |t|;
      assert Decode(t, |t|) == [];
    } else {
      assert NextIndex(t, i) == NextIndex(s, i) && CodePointAt(t, i) == CodePointAt(s, i);
      DecodeAppend(s, c, NextIndex(s, i));
    }
  }

  lemma {:induction false} IndexAppend(s: seq<Unit16>, c: int, i: int, k: int)
    requires 0 <= i <= |s| && 0 <= c <= 0x10ffff && !(0xd800 <= c < 0xe000) && 0 <= k <= |Decode(s, i)|
    ensures k <= |Decode(s + Encode16(c), i)| && UnitIndex(s + Encode16(c), i, k) == UnitIndex(s, i, k)
    decreases k
  {
    DecodeAppend(s, c, i);
    if k > 0 {
      var t := s + Encode16(c);
      assert t[|s|] == Encode16(c)[0];
      assert NextIndex(t, i) == NextIndex(s, i);
      IndexAppend(s, c, NextIndex(s, i), k - 1);
    }
  }

  /** Copied text decodes to the code points it was copied from, each at its native index. */
  lemma {:induction false} CopiedChars(chars: seq<Char>, k: int)
    requires ValidChars(chars) && NoSurrogates(chars) && 0 <= k < |chars|
    ensures var s := UnitsOf(chars);
            && |Decode(s, 0)| == |chars| && Decode(s, 0)[k] == chars[k].c && |NativeOf(chars)| == |s|
            && UnitIndex(s, 0, k) < |s| && NativeOf(chars)[UnitIndex(s, 0, k)] == chars[k].native
    decreases |chars|
  {
    hide Encode16, Decode, UnitIndex;
    var front, last := chars[..|chars| - 1], chars[|chars| - 1];
    var s := UnitsOf(front);
    CopiedLength(front);
    DecodeAppend(s, last.c, 0);
    if k < |front| {
      CopiedChars(front, k);
      IndexAppend(s, last.c, 0, k);
    } else {
      IndexAppend(s, last.c, 0, |front|);
    }
  }

  lemma {:induction false} CopiedLength(chars: seq<Char>)
    requires ValidChars(chars) && NoSurrogates(chars)
    ensures |Decode(UnitsOf(chars), 0)| == |chars| && |NativeOf(chars)| == |UnitsOf(chars)|
  {
    hide Encode16;
    if chars != [] {
      CopiedLength(chars[..|chars| - 1]);
      DecodeAppend(UnitsOf(chars[..|chars| - 1]), chars[|chars| - 1].c, 0);
    }
  }

  /** In normalized text that was copied code point by code point, positions are the native indexes. */
  lemma ProvidedPositions(r: Range, k: int)
    requires ValidRange(r) && r.source.Provided? && NoSurrogates(r.source.chars)
    requires r.norm.isNormalized(UnitsOf(r.source.chars)) && 0 <= k < |r.source.chars|
    ensures |CodePoints(r)| == |r.source.chars|
    ensures CodePoints(r)[k] == r.source.chars[k].c && Position(r, k) == r.source.chars[k].native
  {
    hide UnitsOf, NativeOf;
    CopiedChars(r.source.chars, k);
  }

  // ----- text that is not normalized

  /** A chunk can start at `i`: at the start, or where normalization has a boundary. */
  ghost predicate ChunkStart(norm: Normalizer, s: seq<Unit16>, i: int) {
    0 <= i < |s| && (i == 0 || norm.hasBoundaryBefore(CodePointAt(s, i)))
  }

  /** Nothing after the first code point of a chunk has a boundary before it. */
  lemma {:induction false} ChunkInside(norm: Normalizer, s: seq<Unit16>, i: int, j: int)
    requires 0 <= i < |s| && Border(s, i) && i < j < ChunkEnd(norm, s, i) && Border(s, j)
    ensures !norm.hasBoundaryBefore(CodePointAt(s, j))
    decreases |s| - i
  {
    var n := NextIndex(s, i);
    NextIsBorder(s, i);
    if n < j { ChunkInside(norm, s, n, j); }
  }

  /** Unit `u` of the normalized text belongs to the chunk at `j`, and is mapped to where that chunk starts. */
  lemma {:induction false} OriginOf(norm: Normalizer, s: seq<Unit16>, m: PositionMap, start: int, i: int, u: int)
    returns (j: int)
    requires (m.Mapped? ==> |s| < |m.at|) && ChunkStart(norm, s, i)
    requires |OriginsFrom(norm, s, m, start, i)| == |NormalizedFrom(norm, s, i)|
    requires 0 <= u < |NormalizedFrom(norm, s, i)|
    ensures i <= j && ChunkStart(norm, s, j) && OriginsFrom(norm, s, m, start, i)[u] == At(m, start, j)
    ensures var n := |NormalizedFrom(norm, s, i)|;
            n - |NormalizedFrom(norm, s, j)| <= u < n - |NormalizedFrom(norm, s, ChunkEnd(norm, s, j))|
    decreases |s| - i
  {
    var e := ChunkEnd(norm, s, i);
    var f := norm.normalize(s[i..e]);
    if u < |f| {
      j := i;
    } else {
      ChunkEndStarts(norm, s, i);
      j := OriginOf(norm, s, m, start, e, u - |f|);
    }
  }

  lemma {:induction false} ChunkEndStarts(norm: Normalizer, s: seq<Unit16>, i: int)
    requires 0 <= i < |s|
    ensures var e := ChunkEnd(norm, s, i); e < |s| ==> ChunkStart(norm, s, e)
    decreases |s| - i
  {
    var j := NextIndex(s, i);
    if j < |s| && !norm.hasBoundaryBefore(CodePointAt(s, j)) { ChunkEndStarts(norm, s, j); }
  }

  /** In text that is not normalized, every position is where some chunk starts, so no break is inside a chunk. */
  lemma {:induction false} NormalizedPositions(r: Range, k: int) returns (j: int)
    requires ValidRange(r) && !r.norm.isNormalized(Copied(r)) && 0 <= k < |CodePoints(r)|
    ensures ChunkStart(r.norm, Copied(r), j) && (CopiedMap(r).Mapped? ==> j < |CopiedMap(r).at|)
    ensures Position(r, k) == At(CopiedMap(r), r.start, j)
  {
    CopiedMapOk(r);
    var s, m := Copied(r), CopiedMap(r);
    OriginsOrdered(r.norm, s, m, r.start, r.end, 0);
    hide Copied, CopiedMap, OriginsFrom, NormalizedFrom;
    j := OriginOf(r.norm, s, m, r.start, 0, UnitIndex(Normalized(r), 0, k));
  }
}
