/**
 The writing side of the trie builder: bytes are written backwards, from the end of a growing buffer.
 A position is named by its distance from the end, which later writing does not change.
 */
module TrieWriter {
  import opened Basics
  import opened TrieFormat

  /** A 32-bit integer in two's complement. */
  function Unsigned(i: Int32): nat {
    if i < 0 then i + 0x1_0000_0000 else i
  }

  /** Shifting right by `k` bytes. */
  function ShiftBytes(u: nat, k: nat): nat {
    if k == 0 then u else ShiftBytes(u / 0x100, k - 1)
  }

  /** Byte number `k`, from the low end. */
  function ByteOf(i: Int32, k: nat): Byte {
    ShiftBytes(Unsigned(i), k) % 0x100
  }

  /** The lead byte before it is shifted, and the bytes that follow it. */
  function ValueLead(i: Int32): nat {
    if 0 <= i <= MAX_ONE_BYTE_VALUE then MIN_ONE_BYTE_VALUE_LEAD + i
    else if i < 0 || i > 0xffffff then FIVE_BYTE_VALUE_LEAD
    else if i <= MAX_TWO_BYTE_VALUE then MIN_TWO_BYTE_VALUE_LEAD + i / 0x100
    else if i <= MAX_THREE_BYTE_VALUE then MIN_THREE_BYTE_VALUE_LEAD + i / 0x10000
    else FOUR_BYTE_VALUE_LEAD
  }

  function ValueBytes(i: Int32): seq<Byte> {
    if 0 <= i <= MAX_ONE_BYTE_VALUE then []
    else if i < 0 || i > 0xffffff then [ByteOf(i, 3), ByteOf(i, 2), ByteOf(i, 1), ByteOf(i, 0)]
    else if i <= MAX_TWO_BYTE_VALUE then [ByteOf(i, 0)]
    else if i <= MAX_THREE_BYTE_VALUE then [ByteOf(i, 1), ByteOf(i, 0)]
    else [ByteOf(i, 2), ByteOf(i, 1), ByteOf(i, 0)]
  }

  function EncodeValue(i: Int32, isFinal: bool): seq<Byte> {
    [ValueLead(i) * 2 + (if isFinal then 1 else 0)] + ValueBytes(i)
  }

  function EncodeDelta(i: Int32): seq<Byte>
    requires 0 <= i
  {
    if i <= MAX_ONE_BYTE_DELTA then [i]
    else if i <= MAX_TWO_BYTE_DELTA then [MIN_TWO_BYTE_DELTA_LEAD + i / 0x100, ByteOf(i, 0)]
    else if i <= MAX_THREE_BYTE_DELTA then [MIN_THREE_BYTE_DELTA_LEAD + i / 0x10000, ByteOf(i, 1), ByteOf(i, 0)]
    else if i <= 0xffffff then [FOUR_BYTE_DELTA_LEAD, ByteOf(i, 2), ByteOf(i, 1), ByteOf(i, 0)]
    else [FIVE_BYTE_DELTA_LEAD, ByteOf(i, 3), ByteOf(i, 2), ByteOf(i, 1), ByteOf(i, 0)]
  }

  lemma Shifts(u: nat)
    ensures ShiftBytes(u, 0) == u && ShiftBytes(u, 1) == u / 0x100 && ShiftBytes(u, 2) == u / 0x100 / 0x100
    ensures ShiftBytes(u, 3) == u / 0x100 / 0x100 / 0x100
  {
    var a := u / 0x100;
    var b := a / 0x100;
    assert ShiftBytes(u, 1) == ShiftBytes(a, 0) == a;
    assert ShiftBytes(u, 2) == ShiftBytes(a, 1) == ShiftBytes(b, 0) == b;
    assert ShiftBytes(u, 3) == ShiftBytes(a, 2) == ShiftBytes(b, 1) == ShiftBytes(b / 0x100, 0);
  }

  lemma FourDigits(u: nat)
    requires u < 0x1_0000_0000
    ensures u == u / 0x100 / 0x100 / 0x100 % 0x100 * 0x1000000 + u / 0x100 / 0x100 % 0x100 * 0x10000
                 + u / 0x100 % 0x100 * 0x100 + u % 0x100
  {
    assert u / 0x100 / 0x100 / 0x100 < 0x100;
  }

  lemma FourBytes(u: nat)
    requires u < 0x1_0000_0000
    ensures u == ShiftBytes(u, 3) % 0x100 * 0x1000000 + ShiftBytes(u, 2) % 0x100 * 0x10000
               + ShiftBytes(u, 1) % 0x100 * 0x100 + ShiftBytes(u, 0) % 0x100
  {
    Shifts(u);
    FourDigits(u);
    hide ShiftBytes;
  }

  /** Values of up to three bytes, split as the encoder does it. */
  lemma LowBytes(i: Int32)
    requires 0 <= i
    ensures ByteOf(i, 0) == i % 0x100 && ByteOf(i, 1) == i / 0x100 % 0x100 && ByteOf(i, 2) == i / 0x100 / 0x100 % 0x100
  {
    Shifts(i);
  }

  lemma LowDigits(i: nat)
    ensures i == i / 0x100 * 0x100 + i % 0x100 && i / 0x10000 == i / 0x100 / 0x100
    ensures i == i / 0x10000 * 0x10000 + i / 0x100 % 0x100 * 0x100 + i % 0x100
    ensures i < 0x1000000 ==> i / 0x100 / 0x100 % 0x100 == i / 0x10000
  {
  }

  lemma UpToThreeBytes(i: Int32)
    requires 0 <= i
    ensures i < 0x1000000 ==> i == ByteOf(i, 2) as int * 0x10000 + ByteOf(i, 1) as int * 0x100 + ByteOf(i, 0) as int
    ensures i == i / 0x10000 * 0x10000 + ByteOf(i, 1) as int * 0x100 + ByteOf(i, 0) as int
    ensures i == i / 0x100 * 0x100 + ByteOf(i, 0) as int
  {
    LowBytes(i);
    LowDigits(i);
    hide ByteOf;
  }

  /** The bytes of a value, by its size; the lowest bit of the first byte is the final flag. */
  lemma ValueLayout(i: Int32, isFinal: bool)
    ensures var e, f := EncodeValue(i, isFinal), if isFinal then 1 else 0;
            && (0 <= i <= 0x40 ==> e == [0x20 + 2 * i + f])
            && (0x40 < i <= 0x1aff ==> e == [0xa2 + i / 0x100 * 2 + f, i % 0x100])
            && (0x1aff < i <= 0x11ffff ==> e == [0xd8 + i / 0x10000 * 2 + f, i / 0x100 % 0x100, i % 0x100])
            && (0x11ffff < i <= 0xffffff ==> e == [0xfc + f, i / 0x10000, i / 0x100 % 0x100, i % 0x100])
            && (i < 0 || 0xffffff < i ==>
                  |e| == 5 && e[0] == 0xfe + f
                  && e[1] as int * 0x1000000 + e[2] as int * 0x10000 + e[3] as int * 0x100 + e[4] as int
                     == if i < 0 then i + 0x1_0000_0000 else i)
  {
    FourBytes(Unsigned(i));
    if 0 <= i {
      LowBytes(i);
      LowDigits(i);
    }
    hide ShiftBytes;
  }

  /** The bytes of a jump delta, by its size. */
  lemma DeltaLayout(i: Int32)
    requires 0 <= i
    ensures var e := EncodeDelta(i);
            && (i <= 0xbf ==> e == [i])
            && (0xbf < i <= 0x2fff ==> e == [0xc0 + i / 0x100, i % 0x100])
            && (0x2fff < i <= 0xdffff ==> e == [0xf0 + i / 0x10000, i / 0x100 % 0x100, i % 0x100])
            && (0xdffff < i <= 0xffffff ==> e == [0xfe, i / 0x10000, i / 0x100 % 0x100, i % 0x100])
            && (0xffffff < i ==>
                  |e| == 5 && e[0] == 0xff
                  && e[1] as int * 0x1000000 + e[2] as int * 0x10000 + e[3] as int * 0x100 + e[4] as int == i)
  {
    FourBytes(Unsigned(i));
    LowBytes(i);
    LowDigits(i);
    hide ShiftBytes;
  }

  /** Any 32-bit value reads back as itself with its final flag, wherever it has been written. */
  lemma ValueRoundTrip(before: seq<Byte>, i: Int32, isFinal: bool, after: seq<Byte>)
    ensures var s := before + EncodeValue(i, isFinal) + after;
            && ValueAt(s, |before|) && ValueOf(s, |before|) == i && IsFinal(s[|before|]) == isFinal
            && AfterValue(s, |before|) == |before| + |EncodeValue(i, isFinal)|
  {
    var e := EncodeValue(i, isFinal);
    var s := before + e + after;
    assert forall k :: 0 <= k < |e| ==> s[|before| + k] == e[k];
    assert s[|before|] / 2 == ValueLead(i);
    assert ValueTail(ValueLead(i)) == |ValueBytes(i)|;
    ValueDecodes(s, |before| + 1, i);
  }

  lemma ValueDecodes(s: seq<Byte>, p: int, i: Int32)
    requires 0 <= p && p + |ValueBytes(i)| <= |s| && ValueTail(ValueLead(i)) == |ValueBytes(i)|
    requires forall k :: 0 <= k < |ValueBytes(i)| ==> s[p + k] == ValueBytes(i)[k]
    ensures ReadValue(s, p, ValueLead(i)) == i
  {
    FourBytes(Unsigned(i));
    if 0 <= i { UpToThreeBytes(i); }
    hide ShiftBytes;
    var v := ValueBytes(i);
    if |v| > 0 { assert s[p] == v[0]; }
    if |v| > 1 { assert s[p + 1] == v[1]; }
    if |v| > 2 { assert s[p + 2] == v[2]; }
    if |v| > 3 { assert s[p + 3] == v[3]; }
  }

  /**
   A written jump delta leads over the `i` bytes that followed it when it was written, whatever is written in
   front of it.
   */
  lemma DeltaRoundTrip(before: seq<Byte>, i: Int32, after: seq<Byte>)
    requires 0 <= i
    ensures var s := before + EncodeDelta(i) + after;
            && SkipDelta(s, |before|) == |before| + |EncodeDelta(i)|
            && JumpByDelta(s, |before|) == |before| + |EncodeDelta(i)| + i
  {
    var e := EncodeDelta(i);
    var s := before + e + after;
    FourBytes(Unsigned(i));
    UpToThreeBytes(i);
    hide ShiftBytes;
    assert forall k :: 0 <= k < |e| ==> s[|before| + k] == e[k];
  }

  class Writer {
    var bytes: array<Byte>
    var bytesLength: nat

    ghost predicate Valid()
      reads this
    {
      bytesLength <= bytes.Length && 0 < bytes.Length
    }

    /** What has been written: the end of the buffer. */
    ghost function Content(): seq<Byte>
      reads this, bytes
      requires Valid()
    {
      bytes[bytes.Length - bytesLength..]
    }

    constructor (capacity: nat)
      requires 0 < capacity
      ensures Valid() && fresh(bytes) && Content() == []
    {
      bytes := new Byte[capacity](_ => 0);
      bytesLength := 0;
    }

    /** Copies bytes into an array. */
    static method Put(bytes: array<Byte>, at: nat, b: seq<Byte>)
      requires at + |b| <= bytes.Length
      modifies bytes
      ensures bytes[at..at + |b|] == b && bytes[at + |b|..] == old(bytes[at + |b|..])
    {
      forall k | 0 <= k < |b| {
        bytes[at + k] := b[k];
      }
    }

    method EnsureCapacity(length: nat)
      requires Valid()
      modifies this`bytes
      ensures Valid() && length <= bytes.Length && Content() == old(Content())
      ensures bytes == old(bytes) || fresh(bytes)
    {
      var capacity := bytes.Length;
      if length > capacity {
        var newCapacity := capacity * 2;
        while newCapacity <= length
          invariant capacity < newCapacity
          decreases length - newCapacity
        {
          newCapacity := newCapacity * 2;
        }
        var newBytes := new Byte[newCapacity](_ => 0);
        Put(newBytes, newCapacity - bytesLength, bytes[capacity - bytesLength..]);
        bytes := newBytes;
      }
    }

    /** Writes bytes in front of what is there; returns their distance from the end. */
    method Write(b: seq<Byte>) returns (offset: nat)
      requires Valid()
      modifies this, bytes
      ensures Valid() && (bytes == old(bytes) || fresh(bytes))
      ensures Content() == b + old(Content()) && offset == |Content()|
    {
      var newLength := bytesLength + |b|;
      EnsureCapacity(newLength);
      ghost var rest := Content();
      var start := bytes.Length - newLength;
      Put(bytes, start, b);
      assert bytes[start..] == b + rest;
      bytesLength := newLength;
      offset := bytesLength;
    }

    /** Writes a value so that it reads back as itself. */
    method WriteValueAndFinal(i: Int32, isFinal: bool) returns (offset: nat)
      requires Valid()
      modifies this, bytes
      ensures Valid() && (bytes == old(bytes) || fresh(bytes)) && offset == |Content()|
      ensures Content() == EncodeValue(i, isFinal) + old(Content())
    {
      var flag := if isFinal then 1 else 0;
      if 0 <= i <= MAX_ONE_BYTE_VALUE {
        assert EncodeValue(i, isFinal) == [(MIN_ONE_BYTE_VALUE_LEAD + i) * 2 + flag];
        offset := Write([(MIN_ONE_BYTE_VALUE_LEAD + i) * 2 + flag]);
        return;
      }
      var intBytes: seq<int> := [];
      if i < 0 || i > 0xffffff {
        intBytes := [FIVE_BYTE_VALUE_LEAD, ByteOf(i, 3), ByteOf(i, 2), ByteOf(i, 1), ByteOf(i, 0)];
      } else {
        if i <= MAX_TWO_BYTE_VALUE {
          intBytes := [MIN_TWO_BYTE_VALUE_LEAD + i / 0x100];
        } else {
          if i <= MAX_THREE_BYTE_VALUE {
            intBytes := [MIN_THREE_BYTE_VALUE_LEAD + i / 0x10000];
          } else {
            intBytes := [FOUR_BYTE_VALUE_LEAD, ByteOf(i, 2)];
          }
          intBytes := intBytes + [ByteOf(i, 1)];
        }
        intBytes := intBytes + [ByteOf(i, 0)];
      }
      intBytes := intBytes[0 := intBytes[0] * 2 + flag];
      assert intBytes == EncodeValue(i, isFinal);
      offset := Write(intBytes);
    }

    /** The bytes of a jump delta, lead byte first. */
    static method DeltaBytes(i: nat) returns (intBytes: seq<Byte>)
      requires i < 0x8000_0000
      ensures intBytes == EncodeDelta(i)
    {
      if i <= MAX_ONE_BYTE_DELTA {
        return [i];
      }
      if i <= MAX_TWO_BYTE_DELTA {
        intBytes := [MIN_TWO_BYTE_DELTA_LEAD + i / 0x100];
      } else {
        if i <= MAX_THREE_BYTE_DELTA {
          intBytes := [MIN_THREE_BYTE_DELTA_LEAD + i / 0x10000];
        } else {
          if i <= 0xffffff {
            intBytes := [FOUR_BYTE_DELTA_LEAD];
          } else {
            intBytes := [FIVE_BYTE_DELTA_LEAD, ByteOf(i, 3)];
          }
          intBytes := intBytes + [ByteOf(i, 2)];
        }
        intBytes := intBytes + [ByteOf(i, 1)];
      }
      intBytes := intBytes + [ByteOf(i, 0)];
    }

    /** Writes a jump delta to the position at distance `jumpTarget` from the end. */
    method WriteDeltaTo(jumpTarget: nat) returns (offset: nat)
      requires Valid() && jumpTarget <= |Content()| && |Content()| - jumpTarget < 0x8000_0000
      modifies this, bytes
      ensures Valid() && (bytes == old(bytes) || fresh(bytes)) && offset == |Content()|
      ensures Content() == EncodeDelta(|old(Content())| - jumpTarget) + old(Content())
    {
      hide EncodeDelta;
      var intBytes := DeltaBytes(bytesLength - jumpTarget);
      offset := Write(intBytes);
    }
  }

  /** However much is written later, a written delta still leads to its target, named by its distance from the end. */
  lemma DeltaSurvives(later: seq<Byte>, content: seq<Byte>, jumpTarget: nat)
    requires jumpTarget <= |content| && |content| - jumpTarget < 0x8000_0000
    ensures var s := later + EncodeDelta(|content| - jumpTarget) + content;
            |s| - JumpByDelta(s, |later|) == jumpTarget
  {
    DeltaRoundTrip(later, |content| - jumpTarget, content);
  }
}
