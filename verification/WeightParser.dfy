/** Weights in an Accept-Language header: decimal fractions between 0 and 1 (section 3.9 of RFC 2616). */
module WeightParser {
  import opened PriorityList

  predicate IsDigit(c: char) { '0' <= c <= '9' }

  function DigitValue(c: char): (v: int)
    requires IsDigit(c)
    ensures 0 <= v <= 9
  {
    c as int - '0' as int
  }

  function SkipSpaces(s: string, p: int): (q: int)
    requires 0 <= p <= |s|
    ensures p <= q <= |s| && (q < |s| ==> s[q] != ' ') && forall k :: p <= k < q ==> s[k] == ' '
    decreases |s| - p
  {
    if p < |s| && s[p] == ' ' then SkipSpaces(s, p + 1) else p
  }

  function AfterDigits(s: string, p: int): (q: int)
    requires 0 <= p <= |s|
    ensures p <= q <= |s| && (q < |s| ==> !IsDigit(s[q])) && forall k :: p <= k < q ==> IsDigit(s[k])
    decreases |s| - p
  {
    if p < |s| && IsDigit(s[p]) then AfterDigits(s, p + 1) else p
  }

  /** The number that the fraction digits denote. */
  function Fraction(digits: string): (x: real)
    requires forall c :: c in digits ==> IsDigit(c)
    ensures 0.0 <= x < 1.0
  {
    if digits == [] then 0.0 else (DigitValue(digits[0]) as real + Fraction(digits[1..])) / 10.0
  }

  /** A number in thousandths, rounded half up. */
  function InThousandths(x: real): int { (1000.0 * x + 0.5).Floor }

  /** The weight that the text at `q` denotes, or -1 if there is none or it rounds to more than 1. */
  function WeightAt(s: string, q: int): int
    requires 0 <= q <= |s|
  {
    if q == |s| || !('0' <= s[q] <= '1') then -1
    else if q + 1 == |s| || s[q + 1] != '.' then DigitValue(s[q]) * WEIGHT_ONE
    else
      var weight := InThousandths(DigitValue(s[q]) as real + Fraction(s[q + 2..AfterDigits(s, q + 2)]));
      if weight <= WEIGHT_ONE then weight else -1
  }

  /** Where reading the weight at `q` stops. */
  function WeightEnd(s: string, q: int): int
    requires 0 <= q <= |s|
  {
    if q == |s| || !('0' <= s[q] <= '1') then q
    else if q + 1 == |s| || s[q + 1] != '.' then q + 1
    else AfterDigits(s, q + 2)
  }

  function Digit(digits: string, k: nat): (d: int)
    requires forall c :: c in digits ==> IsDigit(c)
    ensures 0 <= d <= 9
  {
    if k < |digits| then DigitValue(digits[k]) else 0
  }

  /** What the digits read so far add to the weight. */
  function Thousandths(digits: string): (n: int)
    requires forall c :: c in digits ==> IsDigit(c)
    ensures 0 <= n
  {
    Digit(digits, 0) * 100 + Digit(digits, 1) * 10 + Digit(digits, 2) + if Digit(digits, 3) >= 5 then 1 else 0
  }

  function Shifted(digits: string, k: nat): real
    requires forall c :: c in digits ==> IsDigit(c)
  {
    if k <= |digits| then Fraction(digits[k..]) else 0.0
  }

  lemma ShiftedStep(digits: string, k: nat)
    requires forall c :: c in digits ==> IsDigit(c)
    ensures 10.0 * Shifted(digits, k) == Digit(digits, k) as real + Shifted(digits, k + 1)
    ensures 0.0 <= Shifted(digits, k) < 1.0
  {
    if k < |digits| { assert digits[k..][1..] == digits[k + 1..]; }
  }

  /** Three digits and the one after them are enough to round the number. */
  lemma RoundedByFourDigits(whole: int, digits: string)
    requires forall c :: c in digits ==> IsDigit(c)
    ensures InThousandths(whole as real + Fraction(digits)) == whole * WEIGHT_ONE + Thousandths(digits)
  {
    assert digits[0..] == digits;
    ShiftedStep(digits, 0);
    ShiftedStep(digits, 1);
    ShiftedStep(digits, 2);
    ShiftedStep(digits, 3);
    ShiftedStep(digits, 4);
    var d0, d1, d2, d3 := Digit(digits, 0), Digit(digits, 1), Digit(digits, 2), Digit(digits, 3);
    var n := whole * 1000 + d0 * 100 + d1 * 10 + d2;
    var x := 1000.0 * (whole as real + Fraction(digits)) + 0.5;
    assert 10.0 * x == 10.0 * n as real + d3 as real + Shifted(digits, 4) + 5.0;
  }

  /** Reads a weight: the number that is written there, rounded to thousandths. */
  method ParseWeight(s: string, p: int) returns (weight: int, p': int)
    requires 0 <= p <= |s|
    ensures weight == WeightAt(s, SkipSpaces(s, p)) && p' == WeightEnd(s, SkipSpaces(s, p)) && p <= p' <= |s|
    ensures -1 <= weight <= WEIGHT_ONE
  {
    p' := p;
    while p' < |s| && s[p'] == ' '
      invariant p <= p' <= |s| && SkipSpaces(s, p') == SkipSpaces(s, p)
    {
      p' := p' + 1;
    }
    if p' == |s| || (s[p'] != '0' && s[p'] != '1') {
      return -1, p';
    }
    var whole := DigitValue(s[p']);
    weight := whole * WEIGHT_ONE;
    p' := p' + 1;
    if p' == |s| || s[p'] != '.' {
      return;
    }
    weight, p' := AddFraction(s, p' + 1, whole);
    weight := if weight <= WEIGHT_ONE then weight else -1;
  }

  /** What one more digit adds to the weight. */
  lemma NextDigit(digits: string, c: char)
    requires IsDigit(c) && forall d :: d in digits ==> IsDigit(d)
    ensures Thousandths(digits + [c]) ==
              Thousandths(digits) + match |digits|
                                    case 0 => DigitValue(c) * 100
                                    case 1 => DigitValue(c) * 10
                                    case 2 => DigitValue(c)
                                    case 3 => if DigitValue(c) >= 5 then 1 else 0
                                    case _ => 0
  {
  }

  lemma NoDigits()
    ensures Thousandths([]) == 0
  {
  }

  method AddFraction(s: string, p: int, whole: int) returns (weight: int, p': int)
    requires 0 <= p <= |s| && 0 <= whole
    ensures p' == AfterDigits(s, p) && weight == InThousandths(whole as real + Fraction(s[p..p'])) && 0 <= weight
  {
    hide Fraction, InThousandths, Thousandths;
    p', weight := p, whole * WEIGHT_ONE;
    var multiplier := 100;
    NoDigits();
    assert s[p..p'] == [];
    while p' < |s| && IsDigit(s[p'])
      invariant p <= p' <= |s| && AfterDigits(s, p') == AfterDigits(s, p)
      invariant forall c :: c in s[p..p'] ==> IsDigit(c)
      invariant weight == whole * WEIGHT_ONE + Thousandths(s[p..p'])
      invariant multiplier == match p' - p case 0 => 100 case 1 => 10 case 2 => 1 case 3 => 0 case _ => -1
    {
      var d := DigitValue(s[p']);
      NextDigit(s[p..p'], s[p']);
      assert s[p..p' + 1] == s[p..p'] + [s[p']];
      if multiplier > 0 {
        weight := weight + d * multiplier;
        multiplier := multiplier / 10;
      } else if multiplier == 0 {
        if d >= 5 {
          weight := weight + 1;
        }
        multiplier := -1;
      }
      p' := p' + 1;
    }
    RoundedByFourDigits(whole, s[p..p']);
  }
}
