/**
 The loop that divides a range of Thai, Lao, Burmese or Khmer text into words: a text cursor and three
 slots that remember the words found at a position while the loop looks ahead.
 */
module WordEngine {
  import opened WordSpec
  import opened WordEnds
  import opened Vectors

  /** A cursor in a text. */
  class Cursor {
    const text: seq<int>
    var index: int

    ghost predicate Valid()
      reads this
    {
      Boundary(text, 0) && Boundary(text, index)
    }

    constructor (text: seq<int>)
      requires Boundary(text, 0)
      ensures Valid() && this.text == text && index == 0
    {
      this.text := text;
      index := 0;
    }

    method SetNativeIndex(i: int)
      requires Boundary(text, 0) && Boundary(text, i)
      modifies this
      ensures Valid() && index == i
    {
      index := i;
    }

    /** The code point after the cursor, negative at the end of the text. */
    function Current32(): int
      requires Valid()
      reads this
    {
      if index < |text| then text[index] else -1
    }

    /** Reads the code point after the cursor and moves past it; stays at the end of the text. */
    method Next32() returns (c: int)
      requires Valid()
      modifies this
      ensures Valid() && c == old(Current32())
      ensures index == if old(index) < |text| then Next(text, old(index)) else old(index)
    {
      c := Current32();
      if index < |text| {
        index := index + 1;
        while index < |text| && text[index] < 0
          invariant old(index) < index <= |text|
          invariant if Boundary(text, index) then index == Next(text, old(index))
                    else Next(text, index) == Next(text, old(index))
        {
          index := index + 1;
        }
      }
    }

    /** Reads the code point before the cursor and moves before it. */
    method Previous32() returns (c: int)
      requires Valid() && 0 < index
      modifies this
      ensures Valid() && index == Previous(text, old(index)) && c == text[index]
    {
      index := index - 1;
      while text[index] < 0
        invariant 0 <= index < old(index)
        invariant if text[index] >= 0 then index == Previous(text, old(index))
                  else Previous(text, index) == Previous(text, old(index))
        decreases index
      {
        index := index - 1;
      }
      c := text[index];
    }
  }

  /** The words found at one position, and which of them is being looked at and which is preferred. */
  class PossibleWord {
    var count: int
    var prefix: int
    var offset: int
    var mark: int
    var current: int
    var cuLengths: seq<int>
    var cpLengths: seq<int>

    /** What is remembered is what the dictionary finds at `p`. */
    ghost predicate Holds(e: Engine, p: int)
      reads `offset, `cuLengths, `cpLengths, `prefix, `count
    {
      && offset == p && 0 <= p < e.end && Boundary(e.text, p)
      && Matches(cuLengths, cpLengths, prefix) == e.WordsAt(p) && count == |cuLengths|
    }

    ghost predicate Valid(e: Engine)
      reads `offset, `cuLengths, `cpLengths, `prefix, `count
    {
      offset == -1 || Holds(e, offset)
    }

    constructor ()
      ensures offset == -1
    {
      count, prefix, offset, mark, current := 0, 0, -1, 0, 0;
      cuLengths, cpLengths := [], [];
    }

    /** Looks for words at the cursor unless they are remembered, and moves past the longest one. */
    method Candidates(text: Cursor, e: Engine) returns (n: int)
      requires WordSpec.Valid(e) && text.Valid() && text.text == e.text && text.index < e.end && Valid(e)
      modifies this, text
      ensures Holds(e, old(text.index)) && mark == current == count - 1 && text.Valid()
      ensures n == count == |e.WordsAt(old(text.index)).cu|
      ensures text.index == if n > 0 then LongestEnd(e, old(text.index)) else old(text.index)
    {
      var start := text.index;
      assert ValidMatches(e, start);
      if start != offset {
        offset := start;
        var m := e.WordsAt(start);
        cuLengths, cpLengths, prefix, count := m.cu, m.cp, m.prefix, |m.cu|;
        if count <= 0 {
          text.SetNativeIndex(start);
        }
      }
      if count > 0 {
        text.SetNativeIndex(start + cuLengths[count - 1]);
      }
      current := count - 1;
      mark := current;
      n := count;
    }

    /** Moves past the preferred word. */
    method AcceptMarked(text: Cursor, e: Engine) returns (length: int)
      requires WordSpec.Valid(e) && text.text == e.text && offset != -1 && Valid(e) && 0 <= mark < count
      modifies text
      ensures text.Valid() && text.index == WordEnd(e, offset, mark) && length == cuLengths[mark] > 0
    {
      assert ValidMatches(e, offset);
      text.SetNativeIndex(offset + cuLengths[mark]);
      length := cuLengths[mark];
    }

    /** Goes on to the next shorter word, if there is one. */
    method BackUp(text: Cursor, e: Engine) returns (more: bool)
      requires WordSpec.Valid(e) && text.text == e.text && text.Valid() && offset != -1 && Valid(e) && current < count
      modifies this`current, text
      ensures Valid(e) && text.Valid() && more == (old(current) > 0)
      ensures more ==> current == old(current) - 1 && text.index == WordEnd(e, offset, current)
      ensures !more ==> current == old(current) && text.index == old(text.index)
    {
      more := false;
      if current > 0 {
        assert ValidMatches(e, offset);
        current := current - 1;
        text.SetNativeIndex(offset + cuLengths[current]);
        more := true;
      }
    }

    method MarkCurrent()
      modifies this`mark
      ensures mark == current
    {
      mark := current;
    }
  }

  /** Whether any of the words in `second` is followed by another word. */
  method FindThird(second: PossibleWord, third: PossibleWord, text: Cursor, e: Engine, ghost q: int)
    returns (found: bool)
    requires WordSpec.Valid(e) && second != third && text.text == e.text && text.Valid()
    requires second.Holds(e, q) && third.Valid(e) && second.count > 0 && second.current == second.count - 1
    requires text.index == LongestEnd(e, q) < e.end
    modifies second`current, third, text
    ensures second.Holds(e, q) && third.Valid(e) && text.Valid()
    ensures found <==> HasTwoWords(e, q)
  {
    assert ValidMatches(e, q);
    hide WordSpec.Valid, ValidMatches, Boundary, Engine.WordsAt;
    found := false;
    var more := true;
    while more && !found
      invariant second.Holds(e, q) && third.Valid(e) && text.Valid() && 0 <= second.current < second.count
      invariant found ==> HasTwoWords(e, q)
      invariant more && !found ==> text.index == WordEnd(e, q, second.current) < e.end
      invariant more && !found ==> forall k :: second.current < k < second.count ==> !Followed(e, q, k)
      invariant !more && !found ==> forall k :: 0 <= k < second.count ==> !Followed(e, q, k)
      decreases more && !found, second.current
    {
      var n := third.Candidates(text, e);
      if n != 0 {
        assert Followed(e, q, second.current);
        found := true;
      } else {
        more := second.BackUp(text, e);
      }
    }
  }

  /**
   None of the words longer than word `low` is good; `mark` is the shortest of them followed by a word, or the
   longest.
   */
  ghost predicate LookedAt(e: Engine, p: int, low: int, mark: int) {
    var n := |e.WordsAt(p).cu|;
    && -1 <= low < n && 0 <= mark < n
    && (forall k :: low < k < n ==> !GoodWord(e, p, k))
    && (if exists k :: low < k < n && Followed(e, p, k)
        then low < mark && Followed(e, p, mark) && forall k :: low < k < mark ==> !Followed(e, p, k)
        else mark == n - 1)
  }

  lemma LookedAtNext(e: Engine, p: int, low: int, mark: int)
    requires LookedAt(e, p, low, mark) && 0 <= low && !GoodWord(e, p, low)
    ensures LookedAt(e, p, low - 1, if Followed(e, p, low) then low else mark)
  {
    hide GoodWord, Followed;
    if Followed(e, p, low) { assert low - 1 < low; }
  }

  lemma LookedAtAll(e: Engine, p: int, mark: int)
    requires LookedAt(e, p, -1, mark) && HasWord(e, p) && |e.WordsAt(p).cu| != 1 && LongestEnd(e, p) < e.end
    ensures Taken(e, p, mark)
  {
    hide GoodWord, LongestEnd, Followed;
  }

  lemma GoodWordTaken(e: Engine, p: int, low: int, mark: int)
    requires LookedAt(e, p, low, mark) && 0 <= low && GoodWord(e, p, low)
    requires HasWord(e, p) && |e.WordsAt(p).cu| != 1 && LongestEnd(e, p) < e.end
    ensures Taken(e, p, low)
  {
    hide GoodWord, LongestEnd, Followed;
  }

  /** Looks one and two words ahead to find the word to take among several. */
  method ChooseWord(first: PossibleWord, second: PossibleWord, third: PossibleWord, text: Cursor, e: Engine,
                    ghost p: int)
    requires WordSpec.Valid(e) && first != second && second != third && third != first
    requires text.text == e.text && text.Valid()
    requires first.Holds(e, p) && second.Valid(e) && third.Valid(e)
    requires first.count > 1 && first.mark == first.current == first.count - 1 && text.index == LongestEnd(e, p)
    modifies first`current, first`mark, second, third, text
    ensures first.Holds(e, p) && second.Valid(e) && third.Valid(e) && text.Valid()
    ensures 0 <= first.mark < first.count && HasWord(e, p) && Taken(e, p, first.mark)
  {
    assert ValidMatches(e, p);
    hide WordSpec.Valid, ValidMatches, Taken, HasTwoWords, GoodWord, Boundary, Followed;
    if text.index >= e.end {
      LongestTaken(e, p);
    } else {
      LookedAtNone(e, p);
      LookAhead(first, second, third, text, e, p);
    }
  }

  /** Tries the words from the longest to the shortest. */
  method LookAhead(first: PossibleWord, second: PossibleWord, third: PossibleWord, text: Cursor, e: Engine,
                   ghost p: int)
    requires WordSpec.Valid(e) && first != second && second != third && third != first
    requires text.text == e.text && text.Valid()
    requires first.Holds(e, p) && second.Valid(e) && third.Valid(e)
    requires first.count > 1 && 0 <= first.current < first.count && 0 <= first.mark < first.count
    requires text.index == WordEnd(e, p, first.current) && LongestEnd(e, p) < e.end
    requires LookedAt(e, p, first.current, first.mark)
    modifies first`current, first`mark, second, third, text
    ensures first.Holds(e, p) && second.Valid(e) && third.Valid(e) && text.Valid()
    ensures 0 <= first.mark < first.count && Taken(e, p, first.mark)
  {
    hide WordSpec.Valid, ValidMatches, LookedAt, Taken, HasTwoWords, GoodWord, Boundary, Followed, LongestEnd;
    var found, more := false, true;
    while more && !found
      invariant first.Holds(e, p) && second.Valid(e) && third.Valid(e) && text.Valid()
      invariant 0 <= first.current < first.count && 0 <= first.mark < first.count
      invariant found ==> Taken(e, p, first.mark)
      invariant more && !found ==>
                text.index == WordEnd(e, p, first.current) && LookedAt(e, p, first.current, first.mark)
      invariant !more && !found ==> LookedAt(e, p, -1, first.mark)
      decreases more && !found, first.current
    {
      found := LookFurther(first, second, third, text, e, p);
      if !found {
        more := first.BackUp(text, e);
      }
    }
    if !found { LookedAtAll(e, p, first.mark); }
  }

  lemma LongestTaken(e: Engine, p: int)
    requires HasWord(e, p) && LongestEnd(e, p) >= e.end
    ensures Taken(e, p, |e.WordsAt(p).cu| - 1)
  {
  }

  lemma LookedAtNone(e: Engine, p: int)
    requires HasWord(e, p)
    ensures LookedAt(e, p, |e.WordsAt(p).cu| - 1, |e.WordsAt(p).cu| - 1)
  {
  }

  /** Shorter words end no later than the longest one. */
  lemma EndsInside(e: Engine, p: int, k: int)
    requires WordSpec.Valid(e) && 0 <= p < e.end && Boundary(e.text, p) && HasWord(e, p)
    requires 0 <= k < |e.WordsAt(p).cu| && LongestEnd(e, p) < e.end
    ensures WordEnd(e, p, k) < e.end
  {
    assert ValidMatches(e, p);
  }

  /** One step of looking ahead: marks the current word if another follows, and reports whether it is a good one. */
  method LookFurther(first: PossibleWord, second: PossibleWord, third: PossibleWord, text: Cursor, e: Engine,
                     ghost p: int)
    returns (found: bool)
    requires WordSpec.Valid(e) && first != second && second != third && third != first
    requires text.text == e.text && text.Valid()
    requires first.Holds(e, p) && second.Valid(e) && third.Valid(e) && 0 <= first.current < first.count != 1
    requires text.index == WordEnd(e, p, first.current) && LongestEnd(e, p) < e.end
    requires LookedAt(e, p, first.current, first.mark)
    modifies first`mark, second, third, text
    ensures first.Holds(e, p) && second.Valid(e) && third.Valid(e) && text.Valid() && 0 <= first.mark < first.count
    ensures found ==> Taken(e, p, first.mark)
    ensures !found ==> LookedAt(e, p, first.current - 1, first.mark)
  {
    hide WordSpec.Valid, ValidMatches, LookedAt, Taken, HasTwoWords, GoodWord, Followed, LongestEnd, WordEnd, Boundary;
    var q := text.index;
    EndsInside(e, p, first.current);
    LookedFurther(e, p, first.current, first.mark);
    found := false;
    var n := second.Candidates(text, e);
    if n > 0 {
      first.MarkCurrent();
      if text.index >= e.end {
        found := true;
      } else {
        found := FindThird(second, third, text, e, q);
        if found {
          first.MarkCurrent();
        }
      }
    }
  }

  lemma LookedFurther(e: Engine, p: int, low: int, mark: int)
    requires LookedAt(e, p, low, mark) && 0 <= low
    requires HasWord(e, p) && |e.WordsAt(p).cu| != 1 && LongestEnd(e, p) < e.end
    ensures var q := WordEnd(e, p, low);
            var good := HasWord(e, q) && (LongestEnd(e, q) >= e.end || HasTwoWords(e, q));
            && 0 <= mark < |e.WordsAt(p).cu|
            && (good ==> Taken(e, p, low))
            && (!good ==> LookedAt(e, p, low - 1, if HasWord(e, q) then low else mark))
  {
    if GoodWord(e, p, low) { GoodWordTaken(e, p, low, mark); } else { LookedAtNext(e, p, low, mark); }
    hide LookedAt, Taken, HasTwoWords, LongestEnd, WordEnd;
  }

  /** Moves on by one code point; reports whether a word cannot plausibly start there. */
  method ScanOne(slot: PossibleWord, text: Cursor, e: Engine) returns (pcSize: int, more: bool)
    requires WordSpec.Valid(e) && text.text == e.text && text.Valid() && slot.Valid(e) && text.index < e.end
    modifies slot, text
    ensures slot.Valid(e) && text.Valid()
    ensures text.index == Next(e.text, old(text.index)) <= e.end && pcSize == text.index - old(text.index)
    ensures more == (text.index < e.end && !Plausible(e, old(text.index), text.index))
  {
    ResynchronizedStep(e, text.index);
    hide WordSpec.Valid, Resynchronized, Next;
    var pcIndex := text.index;
    var pc := text.Next32();
    pcSize := text.index - pcIndex;
    if text.index >= e.end {
      more := false;
    } else {
      more := true;
      var uc := text.Current32();
      if pc in e.endWord && uc in e.beginWord {
        var n := slot.Candidates(text, e);
        text.SetNativeIndex(pcIndex + pcSize);
        more := n <= 0;
      }
    }
  }

  /** Scans to a plausible word start or to the end of the range; gives the length passed over. */
  method Resynchronize(slot: PossibleWord, text: Cursor, e: Engine) returns (chars: int)
    requires WordSpec.Valid(e) && text.text == e.text && text.Valid() && slot.Valid(e) && text.index < e.end
    modifies slot, text
    ensures slot.Valid(e) && text.Valid()
    ensures text.index == Resynchronized(e, old(text.index)) && chars == text.index - old(text.index) > 0
  {
    assert Boundary(e.text, e.end);
    hide WordSpec.Valid, PossibleWord.Valid, Resynchronized, Next, Plausible;
    var start := text.index;
    chars := 0;
    var more := true;
    while more
      invariant slot.Valid(e) && text.Valid() && start <= text.index <= e.end && text.index == start + chars
      invariant more ==> text.index < e.end && Resynchronized(e, text.index) == Resynchronized(e, start)
      invariant !more ==> text.index == Resynchronized(e, start)
      decreases more, e.end - text.index
    {
      ResynchronizedStep(e, text.index);
      var pcSize;
      pcSize, more := ScanOne(slot, text, e);
      chars := chars + pcSize;
    }
  }

  /** Never stops before a combining mark. */
  method SkipMarks(text: Cursor, e: Engine, length: int) returns (length': int)
    requires WordSpec.Valid(e) && text.text == e.text && text.Valid()
    modifies text
    ensures text.Valid() && text.index == AfterMarks(e, old(text.index))
    ensures old(text.index) <= e.end ==> MarksTo(e, old(text.index), text.index)
    ensures length' == length + text.index - old(text.index)
  {
    length' := length;
    if text.index <= e.end { MarksPassed(e, text.index); }
    hide MarksTo;
    while text.index < e.end && text.Current32() in e.marks
      invariant text.Valid() && AfterMarks(e, text.index) == AfterMarks(e, old(text.index))
      invariant length' == length + text.index - old(text.index)
      decreases e.end - text.index
    {
      var currPos := text.index;
      var c := text.Next32();
      length' := length' + text.index - currPos;
    }
  }

  /** Adds PAIYANNOI to the word before it, unless that ends with a suffix character. */
  method TakePaiyannoi(text: Cursor, length: int) returns (length': int)
    requires text.Valid() && 0 < text.index < |text.text| && text.Current32() == PAIYANNOI
    modifies text
    ensures text.Valid() && length' == length + text.index - old(text.index)
    ensures text.index == if IsSuffix(text.text[Previous(text.text, old(text.index))]) then old(text.index)
                          else Next(text.text, old(text.index))
  {
    length' := length;
    NextPrevious(text.text, text.index);
    var pc := text.Previous32();
    if !IsSuffix(pc) {
      pc := text.Next32();
      var paiyannoiIndex := text.index;
      pc := text.Next32();
      length' := length' + text.index - paiyannoiIndex;
    } else {
      pc := text.Next32();
    }
  }

  /** Adds MAIYAMOK to the word before it, unless that ends with another one. */
  method TakeMaiyamok(text: Cursor, length: int) returns (length': int)
    requires text.Valid() && 0 < text.index < |text.text| && text.Current32() == MAIYAMOK
    modifies text
    ensures text.Valid() && length' == length + text.index - old(text.index)
    ensures text.index == if text.text[Previous(text.text, old(text.index))] == MAIYAMOK then old(text.index)
                          else Next(text.text, old(text.index))
  {
    length' := length;
    NextPrevious(text.text, text.index);
    var pc := text.Previous32();
    if pc != MAIYAMOK {
      pc := text.Next32();
      var maiyamokIndex := text.index;
      pc := text.Next32();
      length' := length' + text.index - maiyamokIndex;
    } else {
      pc := text.Next32();
    }
  }

  lemma SameEnd(e: Engine)
    requires WordSpec.Valid(e)
    ensures e.end <= |e.text| && Boundary(e.text, 0)
  {
  }

  /** Adds suffix characters to a word unless another word follows. */
  method TakeSuffixes(slot: PossibleWord, text: Cursor, e: Engine, length: int) returns (length': int)
    requires WordSpec.Valid(e) && text.text == e.text && text.Valid() && slot.Valid(e) && 0 < text.index
    modifies slot, text
    ensures slot.Valid(e) && text.Valid() && text.index == AfterSuffixes(e, old(text.index))
    ensures length' == length + text.index - old(text.index)
  {
    hide WordSpec.Valid, PossibleWord.Holds, Engine.WordsAt, Next, Previous, Boundary;
    length' := length;
    if !e.hasSuffixes || text.index >= e.end {
      return;
    }
    var start := text.index;
    SameEnd(e);
    var n := slot.Candidates(text, e);
    if n <= 0 && IsSuffix(text.Current32()) {
      var uc := text.Current32();
      PreviousNext(e.text, start);
      if uc == PAIYANNOI {
        length' := TakePaiyannoi(text, length');
        uc := text.Current32();
      }
      if uc == MAIYAMOK {
        length' := TakeMaiyamok(text, length');
      }
    } else {
      text.SetNativeIndex(start);
    }
  }

  /** Takes the word at the cursor, if there is one, and moves past it. */
  method TakeWord(first: PossibleWord, second: PossibleWord, third: PossibleWord, text: Cursor, e: Engine)
    returns (cuLength: int, cpLength: int, ghost k: int)
    requires WordSpec.Valid(e) && first != second && second != third && third != first
    requires text.text == e.text && text.Valid() && text.index < e.end
    requires first.Valid(e) && second.Valid(e) && third.Valid(e)
    modifies first, second, third, text
    ensures first.Valid(e) && second.Valid(e) && third.Valid(e) && text.Valid()
    ensures text.index == old(text.index) + cuLength
    ensures !HasWord(e, old(text.index)) ==> cuLength == cpLength == 0
    ensures HasWord(e, old(text.index)) ==>
              var m := e.WordsAt(old(text.index));
              && 0 <= k < |m.cu| == |m.cp| && Taken(e, old(text.index), k)
              && cuLength == m.cu[k] > 0 && cpLength == m.cp[k]
  {
    cuLength, cpLength, k := 0, 0, 0;
    ghost var p := text.index;
    assert ValidMatches(e, p);
    hide WordSpec.Valid, ValidMatches, Boundary;
    var candidates := first.Candidates(text, e);
    if candidates == 1 {
      k := first.mark;
      assert Taken(e, p, k);
      hide Taken;
      cuLength := first.AcceptMarked(text, e);
      cpLength := first.cpLengths[first.mark];
    } else if candidates > 1 {
      hide Taken;
      ChooseWord(first, second, third, text, e, p);
      k := first.mark;
      cuLength := first.AcceptMarked(text, e);
      cpLength := first.cpLengths[first.mark];
    }
  }

  /** Where the word at `p` ends once text that is no word has been combined with it. */
  ghost function Combined(e: Engine, p: int, k: int): int
    requires WordSpec.Valid(e) && 0 <= p < e.end && Boundary(e.text, p)
    requires HasWord(e, p) ==> 0 <= k < |e.WordsAt(p).cu|
  {
    assert ValidMatches(e, p);
    if !HasWord(e, p) then Resynchronized(e, p)
    else if Combines(e, p, k) then Resynchronized(e, WordEnd(e, p, k)) else WordEnd(e, p, k)
  }

  /** Combines the word just found with following text that is no word; without a word, that text is one. */
  method CombineNonWord(slot: PossibleWord, other: PossibleWord, text: Cursor, e: Engine, ghost p: int, ghost k: int,
                        cuLength: int, cpLength: int)
    returns (cuLength': int, found: bool)
    requires WordSpec.Valid(e) && slot != other && text.text == e.text && text.Valid() && slot.Valid(e)
    requires other.Valid(e)
    requires 0 <= p < e.end && Boundary(e.text, p) && text.index == p + cuLength
    requires !HasWord(e, p) ==> cuLength == cpLength == 0
    requires HasWord(e, p) ==>
               var m := e.WordsAt(p);
               0 <= k < |m.cu| == |m.cp| && cuLength == m.cu[k] > 0 && cpLength == m.cp[k]
    modifies slot, other, text
    ensures slot.Valid(e) && other.Valid(e) && text.Valid()
    ensures text.index == Combined(e, p, k) == p + cuLength'
    ensures found <==> !HasWord(e, p)
  {
    hide WordSpec.Valid, ValidMatches, Resynchronized, Boundary;
    cuLength', found := cuLength, false;
    var q := text.index;
    if q < e.end && cpLength < ROOT_COMBINE_THRESHOLD {
      var candidates := slot.Candidates(text, e);
      if candidates <= 0 && (cuLength == 0 || slot.prefix < PREFIX_COMBINE_THRESHOLD) {
        var chars := Resynchronize(other, text, e);
        if cuLength <= 0 {
          found := true;
        }
        cuLength' := cuLength + chars;
      } else {
        text.SetNativeIndex(q);
      }
    }
  }

  /** The three slots, used in turn. */
  ghost predicate Slots(words: array<PossibleWord>, e: Engine)
    reads words, if words.Length == 3 then {words[0], words[1], words[2]} else {}
  {
    && words.Length == 3 && words[0] != words[1] && words[1] != words[2] && words[2] != words[0]
    && words[0].Valid(e) && words[1].Valid(e) && words[2].Valid(e)
  }

  lemma CombinedBreaks(e: Engine, p: int, k: int)
    requires WordSpec.Valid(e) && 0 <= p < e.end && Boundary(e.text, p)
    requires HasWord(e, p) ==> 0 <= k < |e.WordsAt(p).cu| && Taken(e, p, k)
    ensures var q := Combined(e, p, k);
            && p < q && Boundary(e.text, q) && q <= AfterMarks(e, q)
            && Breaks(e, p, AfterSuffixes(e, AfterMarks(e, q)))
  {
    assert ValidMatches(e, p);
    hide Taken, AfterSuffixes, AfterMarks, ValidMatches, Resynchronized;
    if HasWord(e, p) {
      assert Extended(e, p, k) == AfterSuffixes(e, AfterMarks(e, Combined(e, p, k)));
    }
  }

  /** Marks and suffix characters stay with the word before them. */
  method FinishWord(slot: PossibleWord, text: Cursor, e: Engine, length: int) returns (length': int)
    requires WordSpec.Valid(e) && text.text == e.text && text.Valid() && slot.Valid(e) && 0 < text.index
    modifies slot, text
    ensures slot.Valid(e) && text.Valid() && Boundary(e.text, 0) && e.end <= |e.text|
    ensures old(text.index) <= AfterMarks(e, old(text.index))
    ensures text.index == AfterSuffixes(e, AfterMarks(e, old(text.index)))
    ensures length' == length + text.index - old(text.index)
  {
    hide WordSpec.Valid, AfterSuffixes, PossibleWord.Holds;
    SameEnd(e);
    length' := SkipMarks(text, e, length);
    length' := TakeSuffixes(slot, text, e, length');
  }

  /** Finds one word with the slots in the order in which they are used. */
  method FindWordWith(first: PossibleWord, second: PossibleWord, third: PossibleWord, text: Cursor, e: Engine)
    returns (cuLength: int, n: nat)
    requires WordSpec.Valid(e) && first != second && second != third && third != first
    requires text.text == e.text && text.Valid() && text.index < e.end
    requires first.Valid(e) && second.Valid(e) && third.Valid(e)
    modifies first, second, third, text
    ensures first.Valid(e) && second.Valid(e) && third.Valid(e) && text.Valid()
    ensures text.index == old(text.index) + cuLength && cuLength > 0 && n == 1
    ensures Breaks(e, old(text.index), text.index)
  {
    assert 0 <= text.index;
    hide WordSpec.Valid, Breaks, AfterSuffixes, AfterMarks, Taken, HasWord, PossibleWord.Holds, Combined, Boundary;
    var cpLength, found;
    ghost var p := text.index;
    ghost var k;
    n := 0;
    cuLength, cpLength, k := TakeWord(first, second, third, text, e);
    if cuLength > 0 {
      n := 1;
      cuLength, found := CombineNonWord(second, third, text, e, p, k, cuLength, cpLength);
    } else {
      cuLength, found := CombineNonWord(first, second, text, e, p, k, cuLength, cpLength);
    }
    CombinedBreaks(e, p, k);
    if found {
      n := n + 1;
    }
    cuLength := FinishWord(second, text, e, cuLength);
  }

  /** Finds the next word: exactly one is counted, and the cursor ends after it. */
  method FindWord(words: array<PossibleWord>, wordsFound: nat, text: Cursor, e: Engine)
    returns (cuLength: int, wordsFound': nat)
    requires WordSpec.Valid(e) && Slots(words, e) && text.text == e.text && text.Valid() && text.index < e.end
    modifies words[0], words[1], words[2], text
    ensures Slots(words, e) && text.Valid() && text.index == old(text.index) + cuLength && cuLength > 0
    ensures Breaks(e, old(text.index), text.index) && wordsFound' == wordsFound + 1
  {
    var n;
    cuLength, n := FindWordWith(words[wordsFound % 3], words[(wordsFound + 1) % 3], words[(wordsFound + 2) % 3],
                                text, e);
    wordsFound' := wordsFound + n;
  }

  method MoveIndex32(text: Cursor, n: nat)
    requires text.Valid()
    modifies text
    ensures text.Valid() && text.index == Skip(text.text, old(text.index), n)
  {
    var k := 0;
    while k < n
      invariant 0 <= k <= n && text.Valid()
      invariant Skip(text.text, text.index, n - k) == Skip(text.text, old(text.index), n)
    {
      var c := text.Next32();
      k := k + 1;
    }
  }

  method MakeSlots(e: Engine) returns (words: array<PossibleWord>)
    ensures fresh(words) && Slots(words, e) && fresh(words[0]) && fresh(words[1]) && fresh(words[2])
  {
    var w0 := new PossibleWord();
    var w1 := new PossibleWord();
    var w2 := new PossibleWord();
    words := new PossibleWord[] [w0, w1, w2];
  }

  lemma BreaksHere(e: Engine, p: int, r: int)
    requires WordSpec.Valid(e) && 0 <= p < e.end && Boundary(e.text, p) && Breaks(e, p, r)
    ensures BreaksAt(e, p, r)
  {
  }

  /** Finds one more word and appends its break. */
  method AddWord(words: array<PossibleWord>, text: Cursor, e: Engine, ghost start: int, found: Vector, wordsFound: nat,
                 ghost breaks: seq<int>)
    returns (wordsFound': nat, ghost breaks': seq<int>)
    requires WordSpec.Valid(e) && Slots(words, e) && text.text == e.text && text.Valid()
    requires 0 <= text.index == WordStart(start, breaks, |breaks|) < e.end && Run(e, start, breaks)
    modifies words[0], words[1], words[2], text, found
    ensures Slots(words, e) && text.Valid() && text.index > old(text.index)
    ensures Run(e, start, breaks') && breaks' == breaks + [text.index] && wordsFound' == wordsFound + 1
    ensures found.elements == old(found.elements) + [text.index]
  {
    hide WordSpec.Valid, Boundary, Breaks, PossibleWord.Holds, Run, BreaksAt;
    var current := text.index;
    var length;
    length, wordsFound' := FindWord(words, wordsFound, text, e);
    BreaksHere(e, current, current + length);
    RunStep(e, start, breaks, current + length);
    breaks' := breaks;
    if length > 0 {
      found.Push(current + length);
      breaks' := breaks + [current + length];
    }
  }

  method IsTooShort(text: Cursor, e: Engine, start: int) returns (short: bool)
    requires WordSpec.Valid(e) && text.text == e.text && Boundary(e.text, start)
    modifies text
    ensures short == TooShort(e, start) && (!short ==> start < e.end)
  {
    if e.hasSuffixes {
      text.SetNativeIndex(start);
      MoveIndex32(text, MIN_WORD_SPAN);
      short := text.index >= e.end;
    } else {
      short := e.end - start < MIN_WORD_SPAN;
    }
  }

  /** The words from the cursor to the end of the range. */
  method AddWords(words: array<PossibleWord>, text: Cursor, e: Engine, start: int, found: Vector)
    returns (wordsFound: nat, ghost breaks: seq<int>)
    requires WordSpec.Valid(e) && Slots(words, e) && text.text == e.text && text.Valid() && text.index == start < e.end
    requires 0 <= start && Run(e, start, [])
    modifies words[0], words[1], words[2], text, found
    ensures WholeRun(e, start, breaks) && wordsFound == |breaks|
    ensures found.elements == old(found.elements) + breaks
  {
    hide WordSpec.Valid, Boundary, Run;
    wordsFound, breaks := 0, [];
    while text.index < e.end
      invariant Slots(words, e) && text.Valid() && start <= text.index == WordStart(start, breaks, |breaks|)
      invariant breaks == [] ==> text.index < e.end
      invariant Run(e, start, breaks) && wordsFound == |breaks| && found.elements == old(found.elements) + breaks
      decreases e.end - text.index
    {
      wordsFound, breaks := AddWord(words, text, e, start, found, wordsFound, breaks);
    }
  }

  /** The words from `start` to the end of the range, their breaks appended to `found`. */
  method FindWords(text: Cursor, e: Engine, start: int, found: Vector) returns (wordsFound: nat, ghost breaks: seq<int>)
    requires WordSpec.Valid(e) && text.text == e.text && Boundary(e.text, start) && start < e.end
    modifies text, found
    ensures WholeRun(e, start, breaks) && wordsFound == |breaks|
    ensures found.elements == old(found.elements) + breaks
  {
    assert Boundary(e.text, 0) && 0 <= start;
    assert Run(e, start, []);
    hide WordSpec.Valid, Boundary, Run;
    var words := MakeSlots(e);
    text.SetNativeIndex(start);
    wordsFound, breaks := AddWords(words, text, e, start, found);
  }

  /**
   Divides a range into words and appends the breaks inside it to those found before. The breaks are those
   that the dictionary determines, strictly ascending and strictly inside the range, and are counted.
   */
  method DivideUpDictionaryRange(text: Cursor, e: Engine, start: int, found: Vector, failure: bool)
    returns (wordsFound: int, ghost breaks: seq<int>)
    requires WordSpec.Valid(e) && text.text == e.text && Boundary(e.text, start)
    modifies text, found
    ensures failure || TooShort(e, start) ==> wordsFound == 0 && found.elements == old(found.elements)
    ensures !failure && !TooShort(e, start) ==>
              && WholeRun(e, start, breaks) && wordsFound == |breaks| - 1
              && found.elements == old(found.elements) + breaks[..|breaks| - 1]
              && Ascending(breaks)
              && forall k :: 0 <= k < |breaks| - 1 ==> start < breaks[k] < e.end && NotBeforeMark(e, breaks[k])
  {
    hide WordSpec.Valid, Run, TooShort, BreaksAt, Boundary, NotBeforeMark;
    wordsFound, breaks := 0, [];
    if failure {
      return;
    }
    var short := IsTooShort(text, e, start);
    if short {
      return;
    }
    wordsFound, breaks := FindWords(text, e, start, found);
    WholeRunInside(e, start, breaks);
    RunNotBeforeMarks(e, start, breaks);
    ConcatLast(old(found.elements), breaks);
    if found.Peek() >= e.end {
      var x := found.Pop();
      wordsFound := wordsFound - 1;
    }
  }
}
