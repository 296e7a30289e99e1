/**
 From the text of a dictionary range to the code points that are segmented, and back: a map from code
 point indexes to native indexes is carried through copying, normalization and the change from code units
 to code points.
 */
module CjkMap {
  import opened Utf16

  /** One code point delivered by the text provider, and its native index. */
  datatype Char = Char(c: int, native: int)

  /** The text of the range: one stretch of UTF-16, or code points with native indexes. */
  datatype Source = Contiguous(units: seq<Unit16>) | Provided(chars: seq<Char>)

  datatype Normalizer = Normalizer(isNormalized: seq<Unit16> -> bool, normalize: seq<Unit16> -> seq<Unit16>,
                                   hasBoundaryBefore: int -> bool)

  datatype Range = Range(source: Source, start: int, end: int, norm: Normalizer)

  /** Native index for each index of the current string; without a map, the two differ by the range start. */
  datatype PositionMap = Offset | Mapped(at: seq<int>)

  function At(m: PositionMap, start: int, k: int): int
    requires m.Mapped? ==> 0 <= k < |m.at|
  {
    if m.Mapped? then m.at[k] else start + k
  }

  // ----- code points of a string

  function NextIndex(s: seq<Unit16>, i: int): (j: int)
    requires 0 <= i < |s|
    ensures i < j <= |s|
  {
    if PairAt(s, i) then i + 2 else i + 1
  }

  lemma EncodeAt(s: seq<Unit16>, i: int)
    requires 0 <= i < |s|
    ensures 0 <= CodePointAt(s, i) <= 0x10ffff && Encode16(CodePointAt(s, i)) == s[i..NextIndex(s, i)]
  {
    EncodeDecoded16(s, i);
  }

  function Decode(s: seq<Unit16>, i: int): seq<int>
    requires 0 <= i <= |s|
    decreases |s| - i
  {
    if i == |s| then [] else [CodePointAt(s, i)] + Decode(s, NextIndex(s, i))
  }

  /** Code unit index of the code point with index `k`, counting from unit index `i`. */
  function UnitIndex(s: seq<Unit16>, i: int, k: int): (u: int)
    requires 0 <= i <= |s| && 0 <= k <= |Decode(s, i)|
    ensures i + k <= u <= |s| && (u == |s| <==> k == |Decode(s, i)|)
    decreases k
  {
    if k == 0 then i else UnitIndex(s, NextIndex(s, i), k - 1)
  }

  lemma {:induction false} UnitIndexStep(s: seq<Unit16>, i: int, k: int)
    requires 0 <= i <= |s| && 0 <= k < |Decode(s, i)|
    ensures UnitIndex(s, i, k + 1) == NextIndex(s, UnitIndex(s, i, k))
    ensures Decode(s, i)[k] == CodePointAt(s, UnitIndex(s, i, k))
    decreases k
  {
    if k > 0 { UnitIndexStep(s, NextIndex(s, i), k - 1); }
  }

  lemma {:induction false} UnitIndexMonotone(s: seq<Unit16>, j: int, k: int)
    requires 0 <= j <= k <= |Decode(s, 0)|
    ensures UnitIndex(s, 0, j) <= UnitIndex(s, 0, k) && (j < k ==> UnitIndex(s, 0, j) < UnitIndex(s, 0, k))
    decreases k - j
  {
    if j < k {
      UnitIndexMonotone(s, j, k - 1);
      UnitIndexStep(s, 0, k - 1);
    }
  }

  /** As many code points as code units means that the indexes are the same. */
  lemma {:induction false} NoPairs(s: seq<Unit16>, i: int, k: int)
    requires 0 <= i <= |s| && |Decode(s, i)| == |s| - i && 0 <= k <= |s| - i
    ensures UnitIndex(s, i, k) == i + k
    decreases k
  {
    if k > 0 {
      DecodeShorter(s, NextIndex(s, i));
      NoPairs(s, i + 1, k - 1);
    }
  }

  lemma {:induction false} DecodeShorter(s: seq<Unit16>, i: int)
    requires 0 <= i <= |s|
    ensures |Decode(s, i)| <= |s| - i
    decreases |s| - i
  {
    if i < |s| { DecodeShorter(s, NextIndex(s, i)); }
  }

  lemma NextIsBorder(s: seq<Unit16>, i: int)
    requires 0 <= i < |s|
    ensures Border(s, NextIndex(s, i))
  {
  }

  /** Random access to a code point: a trail surrogate is combined with the lead surrogate before it. */
  function Char32At(s: seq<Unit16>, i: int): int
    requires 0 <= i < |s|
  {
    if PairAt(s, i - 1) then Supplementary(s[i - 1], s[i]) else CodePointAt(s, i)
  }

  // ----- the map

  /** The map runs from the range start to the range end without going back, and only the end maps to the range end. */
  ghost predicate MapOk(m: PositionMap, n: int, start: int, end: int) {
    && 0 < n && (m.Mapped? ==> n < |m.at|)
    && At(m, start, 0) == start && At(m, start, n) == end
    && (forall k :: 0 <= k < n ==> At(m, start, k) < end)
    && (forall j, k :: 0 <= j <= k <= n ==> At(m, start, j) <= At(m, start, k))
  }

  ghost predicate Ordered(at: seq<int>, low: int, high: int) {
    && (forall k :: 0 <= k < |at| ==> low <= at[k] < high)
    && (forall j, k :: 0 <= j <= k < |at| ==> at[j] <= at[k])
  }

  lemma ClosedMap(at: seq<int>, start: int, end: int)
    requires at != [] && at[0] == start && Ordered(at, start, end)
    ensures MapOk(Mapped(at + [end]), |at|, start, end)
  {
  }

  lemma OrderedJoin(a: seq<int>, b: seq<int>, low: int, mid: int, high: int)
    requires Ordered(a, low, mid) && Ordered(b, mid, high) && low <= mid <= high
    ensures Ordered(a + b, low, high)
  {
  }

  function Repeat(x: int, n: int): seq<int>
    requires 0 <= n
  {
    seq(n, _ => x)
  }

  // ----- copying

  predicate ValidChars(chars: seq<Char>) {
    && (forall k :: 0 <= k < |chars| ==> 0 <= chars[k].c <= 0x10ffff)
    && (forall j, k :: 0 <= j < k < |chars| ==> chars[j].native < chars[k].native)
  }

  function UnitsOf(chars: seq<Char>): seq<Unit16>
    requires ValidChars(chars)
  {
    if chars == [] then []
    else UnitsOf(chars[..|chars| - 1]) + Encode16(chars[|chars| - 1].c)
  }

  /** For each code unit, the native index of the code point it belongs to. */
  function NativeOf(chars: seq<Char>): seq<int>
    requires ValidChars(chars)
  {
    if chars == [] then []
    else NativeOf(chars[..|chars| - 1]) + Repeat(chars[|chars| - 1].native, |Encode16(chars[|chars| - 1].c)|)
  }

  lemma {:induction false} NativeOrdered(chars: seq<Char>, end: int)
    requires ValidChars(chars) && forall k :: 0 <= k < |chars| ==> chars[k].native < end
    ensures |NativeOf(chars)| == |UnitsOf(chars)|
    ensures chars != [] ==> NativeOf(chars) != [] && NativeOf(chars)[0] == chars[0].native
    ensures chars != [] ==> Ordered(NativeOf(chars), chars[0].native, end)
  {
    if chars != [] {
      var front, last := chars[..|chars| - 1], chars[|chars| - 1];
      NativeOrdered(front, last.native);
      var tail := Repeat(last.native, |Encode16(last.c)|);
      if front != [] { OrderedJoin(NativeOf(front), tail, front[0].native, last.native, end); }
    }
  }

  lemma CopyNext(chars: seq<Char>, k: int, limit: int)
    requires ValidChars(chars) && 0 <= k < |chars| && forall j :: 0 <= j < |chars| ==> chars[j].native < limit
    ensures ValidChars(chars[..k]) && ValidChars(chars[..k + 1]) && |NativeOf(chars[..k])| == |UnitsOf(chars[..k])|
    ensures UnitsOf(chars[..k + 1]) == UnitsOf(chars[..k]) + Encode16(chars[k].c)
    ensures NativeOf(chars[..k + 1]) == NativeOf(chars[..k]) + Repeat(chars[k].native, |Encode16(chars[k].c)|)
  {
    assert chars[..k + 1][..k] == chars[..k];
    NativeOrdered(chars[..k], limit);
  }

  lemma CopyNone()
    ensures UnitsOf([]) == [] && NativeOf([]) == []
  {
  }

  method CopyText(chars: seq<Char>, limit: int) returns (s: seq<Unit16>, map_: seq<int>)
    requires ValidChars(chars) && forall k :: 0 <= k < |chars| ==> chars[k].native < limit
    ensures s == UnitsOf(chars) && map_ == NativeOf(chars) + [limit]
  {
    hide UnitsOf, NativeOf, Encode16, Repeat;
    s, map_ := [], [];
    var k := 0;
    CopyNone();
    while k < |chars|
      invariant 0 <= k <= |chars| && s == UnitsOf(chars[..k]) && map_ == NativeOf(chars[..k])
    {
      var nativePosition := chars[k].native;
      CopyNext(chars, k, limit);
      s := s + Encode16(chars[k].c);
      map_ := Fill(map_, |s|, nativePosition);
      k := k + 1;
    }
    assert chars[..k] == chars;
    map_ := map_ + [limit];
  }

  // ----- normalization

  /** The end of the chunk that starts at `i`: the next code point with a normalization boundary before it. */
  function ChunkEnd(norm: Normalizer, s: seq<Unit16>, i: int): (j: int)
    requires 0 <= i < |s|
    ensures i < j <= |s|
    decreases |s| - i
  {
    var j := NextIndex(s, i);
    if j == |s| || norm.hasBoundaryBefore(CodePointAt(s, j)) then j else ChunkEnd(norm, s, j)
  }

  function NormalizedFrom(norm: Normalizer, s: seq<Unit16>, i: int): seq<Unit16>
    requires 0 <= i <= |s|
    decreases |s| - i
  {
    if i == |s| then []
    else norm.normalize(s[i..ChunkEnd(norm, s, i)]) + NormalizedFrom(norm, s, ChunkEnd(norm, s, i))
  }

  /** For each normalized unit, the native index of the start of the chunk it comes from. */
  function OriginsFrom(norm: Normalizer, s: seq<Unit16>, m: PositionMap, start: int, i: int): seq<int>
    requires 0 <= i <= |s| && (m.Mapped? ==> |s| < |m.at|)
    decreases |s| - i
  {
    if i == |s| then []
    else Repeat(At(m, start, i), |norm.normalize(s[i..ChunkEnd(norm, s, i)])|)
         + OriginsFrom(norm, s, m, start, ChunkEnd(norm, s, i))
  }

  lemma OrderedNone(low: int, high: int)
    ensures Ordered([], low, high)
  {
  }

  lemma OrderedRepeat(x: int, n: nat, rest: seq<int>, low: int, high: int)
    requires x <= low && x < high && Ordered(rest, low, high)
    ensures Ordered(Repeat(x, n) + rest, x, high)
  {
  }

  lemma {:induction false} OriginsOrdered(norm: Normalizer, s: seq<Unit16>, m: PositionMap, start: int, end: int,
                                          i: int)
    requires MapOk(m, |s|, start, end) && 0 <= i <= |s| && forall f :: f != [] ==> norm.normalize(f) != []
    ensures |OriginsFrom(norm, s, m, start, i)| == |NormalizedFrom(norm, s, i)|
    ensures Ordered(OriginsFrom(norm, s, m, start, i), At(m, start, i), end)
    ensures i < |s| ==>
              OriginsFrom(norm, s, m, start, i) != [] && OriginsFrom(norm, s, m, start, i)[0] == At(m, start, i)
    decreases |s| - i
  {
    hide ChunkEnd, At, Ordered;
    if i == |s| {
      OrderedNone(At(m, start, i), end);
    } else {
      var j := ChunkEnd(norm, s, i);
      OriginsOrdered(norm, s, m, start, end, j);
      var fragment := s[i..j];
      assert fragment != [];
      OrderedRepeat(At(m, start, i), |norm.normalize(fragment)|, OriginsFrom(norm, s, m, start, j), At(m, start, j),
                    end);
    }
  }

  lemma ReadOne(s: seq<Unit16>, start: int, i: int)
    requires 0 <= start <= i < |s| && Border(s, i)
    ensures var c := CodePointAt(s, i);
            && 0 <= c <= 0x10ffff && Char32At(s, i) == c
            && s[start..i] + Encode16(c) == s[start..NextIndex(s, i)]
    ensures Border(s, NextIndex(s, i))
  {
    EncodeAt(s, i);
    NextIsBorder(s, i);
    hide Encode16;
    assert s[start..i] + s[i..NextIndex(s, i)] == s[start..NextIndex(s, i)];
  }

  method ReadChunk(norm: Normalizer, s: seq<Unit16>, start: int) returns (fragment: seq<Unit16>, srcI: int)
    requires 0 <= start < |s| && Border(s, start)
    ensures srcI == ChunkEnd(norm, s, start) && fragment == s[start..srcI] && Border(s, srcI)
  {
    hide Encode16, Char32At, CodePointAt, NextIndex, Border;
    fragment, srcI := [], start;
    ReadOne(s, start, srcI);
    var c := Char32At(s, srcI);
    var more := true;
    while more
      invariant start <= srcI <= |s| && Border(s, srcI) && fragment == s[start..srcI]
      invariant more ==> srcI < |s| && c == CodePointAt(s, srcI) && ChunkEnd(norm, s, srcI) == ChunkEnd(norm, s, start)
      invariant !more ==> srcI == ChunkEnd(norm, s, start)
      decreases |s| - srcI, more
    {
      ReadOne(s, start, srcI);
      fragment := fragment + Encode16(c);
      srcI := NextIndex(s, srcI);
      if srcI == |s| {
        more := false;
      } else {
        ReadOne(s, start, srcI);
        c := Char32At(s, srcI);
        more := !norm.hasBoundaryBefore(c);
      }
    }
  }

  /** Appends `x` until the list has `n` entries. */
  method Fill(list: seq<int>, n: int, x: int) returns (r: seq<int>)
    requires |list| <= n
    ensures r == list + Repeat(x, n - |list|)
  {
    r := list;
    while |r| < n
      invariant |list| <= |r| <= n && r == list + Repeat(x, |r| - |list|)
    {
      r := r + [x];
    }
  }

  lemma ChunkStep(norm: Normalizer, s: seq<Unit16>, m: PositionMap, start: int, i: int, t: seq<Unit16>, at: seq<int>)
    requires (m.Mapped? ==> |s| < |m.at|) && 0 <= i < |s|
    ensures var j := ChunkEnd(norm, s, i);
            var f := norm.normalize(s[i..j]);
            && t + NormalizedFrom(norm, s, i) == t + f + NormalizedFrom(norm, s, j)
            && at + OriginsFrom(norm, s, m, start, i)
               == at + Repeat(At(m, start, i), |f|) + OriginsFrom(norm, s, m, start, j)
  {
    hide ChunkEnd, Repeat;
    var j := ChunkEnd(norm, s, i);
    assert NormalizedFrom(norm, s, i) == norm.normalize(s[i..j]) + NormalizedFrom(norm, s, j);
  }

  method NormalizeText(norm: Normalizer, s: seq<Unit16>, m: PositionMap, start: int)
    returns (t: seq<Unit16>, at: seq<int>)
    requires m.Mapped? ==> |s| < |m.at|
    ensures t == NormalizedFrom(norm, s, 0)
    ensures at == OriginsFrom(norm, s, m, start, 0) + [At(m, start, |s|)]
  {
    assert NormalizedFrom(norm, s, |s|) == [] && OriginsFrom(norm, s, m, start, |s|) == [];
    hide NormalizedFrom, OriginsFrom, ChunkEnd, At;
    t, at := [], [];
    var srcI := 0;
    while srcI < |s|
      invariant 0 <= srcI <= |s| && Border(s, srcI) && |at| == |t|
      invariant t + NormalizedFrom(norm, s, srcI) == NormalizedFrom(norm, s, 0)
      invariant at + OriginsFrom(norm, s, m, start, srcI) == OriginsFrom(norm, s, m, start, 0)
    {
      var fragmentStart := srcI;
      var fragment;
      fragment, srcI := ReadChunk(norm, s, srcI);
      ChunkStep(norm, s, m, start, fragmentStart, t, at);
      var normalizedFragment := norm.normalize(fragment);
      t := t + normalizedFragment;
      at := Fill(at, |t|, At(m, start, fragmentStart));
    }
    assert t + [] == t && at + [] == at;
    at := at + [At(m, start, |s|)];
  }

  // ----- code points

  method CountCodePoints(s: seq<Unit16>) returns (n: int)
    ensures n == |Decode(s, 0)|
  {
    var i := 0;
    n := 0;
    while i < |s|
      invariant 0 <= i <= |s| && n + |Decode(s, i)| == |Decode(s, 0)|
    {
      i := NextIndex(s, i);
      n := n + 1;
    }
  }

  /** The first `c` entries are those of code points, and the rest is as it was. */
  ghost predicate Compacted(s: seq<Unit16>, m: PositionMap, start: int, at: seq<int>, c: int)
    requires m.Mapped? ==> |s| < |m.at|
  {
    && (if m.Mapped? then |at| == |m.at| && forall u :: 0 <= c <= u < |at| ==> at[u] == m.at[u] else |at| == c)
    && forall k :: 0 <= k < c && k <= |Decode(s, 0)| ==> k < |at| && at[k] == At(m, start, UnitIndex(s, 0, k))
  }

  lemma CompactStart(s: seq<Unit16>, m: PositionMap, start: int)
    requires m.Mapped? ==> |s| < |m.at|
    ensures Compacted(s, m, start, if m.Mapped? then m.at else [], 0)
    ensures UnitIndex(s, 0, 0) == 0
  {
  }

  lemma CompactedLength(s: seq<Unit16>, m: PositionMap, start: int, at: seq<int>, c: int)
    requires (m.Mapped? ==> |s| < |m.at|) && Compacted(s, m, start, at, c)
    ensures |at| == if m.Mapped? then |m.at| else c
  {
  }

  lemma CompactEnd(s: seq<Unit16>, m: PositionMap, start: int, at: seq<int>)
    requires (m.Mapped? ==> |s| < |m.at|) && Compacted(s, m, start, at, |Decode(s, 0)| + 1)
    ensures |Decode(s, 0)| < |at|
    ensures forall k :: 0 <= k <= |Decode(s, 0)| ==> at[k] == At(m, start, UnitIndex(s, 0, k))
  {
    hide Decode, UnitIndex;
    DecodeShorter(s, 0);
  }

  lemma CompactNext(s: seq<Unit16>, m: PositionMap, start: int, at: seq<int>, c: int)
    requires (m.Mapped? ==> |s| < |m.at|) && 0 <= c <= |Decode(s, 0)| && Compacted(s, m, start, at, c)
    ensures var u := UnitIndex(s, 0, c);
            && c <= u <= |s| && (m.Mapped? ==> u < |at|)
            && Compacted(s, m, start, if m.Mapped? then at[c := at[u]] else at + [u + start], c + 1)
  {
    hide Decode, UnitIndex;
  }

  /** Replaces the entries for code units by those for code points, in place if there is a map already. */
  method CompactMap(s: seq<Unit16>, m: PositionMap, start: int) returns (r: PositionMap)
    requires m.Mapped? ==> |s| < |m.at|
    ensures r.Mapped? && |Decode(s, 0)| < |r.at|
    ensures forall k :: 0 <= k <= |Decode(s, 0)| ==> r.at[k] == At(m, start, UnitIndex(s, 0, k))
  {
    hide Decode, UnitIndex, NextIndex, Compacted, At;
    ghost var n := |Decode(s, 0)|;
    DecodeShorter(s, 0);
    var at := if m.Mapped? then m.at else [];
    var cuIdx, cpIdx := 0, 0;
    var done := false;
    CompactStart(s, m, start);
    while !done
      invariant 0 <= cpIdx <= n + 1 && (if done then cpIdx == n + 1 else cpIdx <= n && cuIdx == UnitIndex(s, 0, cpIdx))
      invariant Compacted(s, m, start, at, cpIdx)
      decreases n + 1 - cpIdx
    {
      CompactNext(s, m, start, at, cpIdx);
      CompactedLength(s, m, start, at, cpIdx);
      if m.Mapped? {
        at := at[cpIdx := at[cuIdx]];
      } else {
        at := at + [cuIdx + start];
      }
      cpIdx := cpIdx + 1;
      if cuIdx == |s| {
        done := true;
      } else {
        UnitIndexStep(s, 0, cpIdx - 1);
        cuIdx := NextIndex(s, cuIdx);
      }
    }
    CompactEnd(s, m, start, at);
    r := Mapped(at);
  }

  // ----- the whole range

  ghost predicate ValidSource(r: Range) {
    match r.source
    case Contiguous(units) => |units| == r.end - r.start
    case Provided(chars) =>
      && ValidChars(chars) && chars != [] && chars[0].native == r.start
      && forall k :: 0 <= k < |chars| ==> chars[k].native < r.end
  }

  /** Normalization never makes text disappear. */
  ghost predicate ValidNormalizer(norm: Normalizer) { forall f :: f != [] ==> norm.normalize(f) != [] }

  ghost predicate ValidRange(r: Range) { 0 <= r.start < r.end && ValidSource(r) && ValidNormalizer(r.norm) }

  ghost function Copied(r: Range): seq<Unit16>
    requires ValidRange(r)
  {
    if r.source.Contiguous? then r.source.units else UnitsOf(r.source.chars)
  }

  ghost function CopiedMap(r: Range): PositionMap
    requires ValidRange(r)
  {
    if r.source.Contiguous? then Offset else Mapped(NativeOf(r.source.chars) + [r.end])
  }

  lemma CopiedMapOk(r: Range)
    requires ValidRange(r)
    ensures MapOk(CopiedMap(r), |Copied(r)|, r.start, r.end)
  {
    if r.source.Provided? {
      NativeOrdered(r.source.chars, r.end);
      ClosedMap(NativeOf(r.source.chars), r.start, r.end);
    }
  }

  ghost function Normalized(r: Range): seq<Unit16>
    requires ValidRange(r)
  {
    if r.norm.isNormalized(Copied(r)) then Copied(r) else NormalizedFrom(r.norm, Copied(r), 0)
  }

  ghost function NormalizedMap(r: Range): PositionMap
    requires ValidRange(r)
  {
    CopiedMapOk(r);
    if r.norm.isNormalized(Copied(r)) then CopiedMap(r)
    else Mapped(OriginsFrom(r.norm, Copied(r), CopiedMap(r), r.start, 0) + [r.end])
  }

  lemma NormalizedMapOk(r: Range)
    requires ValidRange(r)
    ensures MapOk(NormalizedMap(r), |Normalized(r)|, r.start, r.end)
  {
    CopiedMapOk(r);
    hide CopiedMap, Copied;
    if !r.norm.isNormalized(Copied(r)) {
      OriginsOrdered(r.norm, Copied(r), CopiedMap(r), r.start, r.end, 0);
      ClosedMap(OriginsFrom(r.norm, Copied(r), CopiedMap(r), r.start, 0), r.start, r.end);
    }
  }

  /** The code points to be segmented. */
  ghost function CodePoints(r: Range): seq<int>
    requires ValidRange(r)
  {
    Decode(Normalized(r), 0)
  }

  /** Native index of a code point index: where the chunk that the code point comes from starts in the text. */
  ghost function Position(r: Range, k: int): int
    requires ValidRange(r) && 0 <= k <= |CodePoints(r)|
  {
    NormalizedMapOk(r);
    At(NormalizedMap(r), r.start, UnitIndex(Normalized(r), 0, k))
  }

  /** Positions start at the range start, never go back, and reach the range end only with the last one. */
  lemma PositionsOrdered(r: Range)
    requires ValidRange(r)
    ensures 0 < |CodePoints(r)| && Position(r, 0) == r.start && Position(r, |CodePoints(r)|) == r.end
    ensures forall k :: 0 <= k < |CodePoints(r)| ==> Position(r, k) < r.end
    ensures forall j, k :: 0 <= j <= k <= |CodePoints(r)| ==> Position(r, j) <= Position(r, k)
  {
    NormalizedMapOk(r);
    hide Normalized, NormalizedMap;
    forall j, k | 0 <= j <= k <= |CodePoints(r)| ensures Position(r, j) <= Position(r, k) {
      UnitIndexMonotone(Normalized(r), j, k);
    }
  }

  /** Copies, normalizes and maps the text of the range. */
  method MapRange(r: Range) returns (s: seq<Unit16>, m: PositionMap)
    requires ValidRange(r)
    ensures s == Normalized(r)
    ensures m.Mapped? ==> |CodePoints(r)| < |m.at|
    ensures forall k :: 0 <= k <= |CodePoints(r)| ==> At(m, r.start, k) == Position(r, k)
  {
    s, m := NormalizeRange(r);
    NormalizedMapOk(r);
    hide Normalized, NormalizedMap;
    var n := CountCodePoints(s);
    if n != |s| {
      m := CompactMap(s, m, r.start);
    } else {
      forall k | 0 <= k <= n ensures UnitIndex(s, 0, k) == k { NoPairs(s, 0, k); }
    }
  }

  method NormalizeRange(r: Range) returns (s: seq<Unit16>, m: PositionMap)
    requires ValidRange(r)
    ensures s == Normalized(r) && m == NormalizedMap(r)
  {
    CopiedMapOk(r);
    if r.source.Contiguous? {
      s, m := r.source.units, Offset;
    } else {
      var at;
      s, at := CopyText(r.source.chars, r.end);
      m := Mapped(at);
    }
    if !r.norm.isNormalized(s) {
      var at;
      s, at := NormalizeText(r.norm, s, m, r.start);
      m := Mapped(at);
    }
  }
}
