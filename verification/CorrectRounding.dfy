/** Correct rounding of a number to a number of digits, told from the number alone: its leading digit fixes the place of
    the last digit, and there it is rounded to nearest. */
module CorrectRounding {
  import opened Arith
  import opened Rounding
  import opened RadixLog
  import opened Powers
  import opened Float64
  import opened ToFloat64
  import opened ReadBack
  import opened FreeDigits
  import opened DtoaFree

  /** x has E digits before the dot, and k is x * radix^(n - E) rounded to an integer: to nearest, halves to the even
      one or away from zero. */
  ghost predicate RoundsTo(x: real, radix: nat, n: nat, E: int, k: nat, mode: Mode)
    requires radix > 0
  {
    var s := Scale(x, radix, n - E);
    && RPow(radix, E - 1) <= x < RPow(radix, E)
    && s - 0.5 <= k as real <= s + 0.5
    && (mode == NearestEven && (k as real == s + 0.5 || k as real == s - 0.5) ==> k % 2 == 0)
    && (mode == NearestAway ==> k as real != s - 0.5)
  }

  /** y is x correctly rounded to n digits. */
  ghost predicate IsRounding(x: real, radix: nat, n: nat, y: real, mode: Mode)
    requires radix > 0
  {
    exists E: int, k: nat :: RoundsTo(x, radix, n, E, k, mode) && y == DigitValue(k, radix, E, n)
  }

  /** There is only one. */
  lemma RoundsToUnique(x: real, radix: nat, n: nat, E: int, k: nat, E': int, k': nat, mode: Mode)
    requires radix >= 2 && mode != Truncate
    requires RoundsTo(x, radix, n, E, k, mode) && RoundsTo(x, radix, n, E', k', mode)
    ensures E == E' && k == k'
  {
    hide RPow, Scale;
    if E < E' {
      RPowMono(radix, E, E' - 1);
    } else if E' < E {
      RPowMono(radix, E', E - 1);
    }
  }

  lemma IsRoundingUnique(x: real, radix: nat, n: nat, y: real, z: real, mode: Mode)
    requires radix >= 2 && mode != Truncate && IsRounding(x, radix, n, y, mode) && IsRounding(x, radix, n, z, mode)
    ensures y == z
  {
    hide RoundsTo, DigitValue;
    var E: int, k: nat :| RoundsTo(x, radix, n, E, k, mode) && y == DigitValue(k, radix, E, n);
    var E': int, k': nat :| RoundsTo(x, radix, n, E', k', mode) && z == DigitValue(k', radix, E', n);
    RoundsToUnique(x, radix, n, E, k, E', k', mode);
  }

  lemma RoundIsRounding(s: real, mode: Mode)
    requires s >= 0.0 && mode != Truncate
    ensures var k := Round(s, mode);
            && k >= 0 && s - 0.5 <= k as real <= s + 0.5
            && (mode == NearestEven && (k as real == s + 0.5 || k as real == s - 0.5) ==> k % 2 == 0)
            && (mode == NearestAway ==> k as real != s - 0.5)
  {
  }

  /** The digits that js_dtoa finds at a precision, at the first exponent or raised once, are the correct rounding. */
  lemma RoundedIsRounding(m: nat, e: int, radix: nat, n: nat, mant: nat, E: int, mode: Mode)
    requires FinitePair(m, e) && 2 <= radix <= 36 && n >= 1 && mode != Truncate
    requires RoundedTo(Double(m, e), radix, FirstExponent(e, radix), n, mant, E, mode)
    ensures IsRounding(Double(m, e), radix, n, DigitValue(mant, radix, E, n), mode)
  {
    hide Pow, RPow, Scale, FirstExponent, Round, Double, RoundsTo, DigitValue;
    var E0, x := FirstExponent(e, radix), Double(m, e);
    BelowTheTop(x, radix, E0, n);
    DoubleBounds(m, e);
    ExponentOfPair(m, e);
    ExponentBracket(e, radix);
    PowPositive(radix, n);
    if x < RPow(radix, E0) {
      AtFirst(x, radix, n, E0, mode);
      if E != E0 {
        SecondMantissa(m, e, radix, n, mode);
        AtMostPower(x, radix, n, E0, mode);
        SamePower(radix, n, E0);
      }
    } else {
      ReachesPower(x, radix, n, E0, mode);
      AtSecond(m, e, radix, n, mode);
    }
  }

  lemma AtFirst(x: real, radix: nat, n: nat, E: int, mode: Mode)
    requires radix > 0 && mode != Truncate && RPow(radix, E - 1) <= x < RPow(radix, E) && x >= 0.0
    ensures RoundedAt(x, radix, n - E, mode) >= 0
    ensures RoundsTo(x, radix, n, E, RoundedAt(x, radix, n - E, mode), mode)
  {
    hide RPow, Round;
    RoundIsRounding(Scale(x, radix, n - E), mode);
  }

  lemma AtMostPower(x: real, radix: nat, n: nat, E: int, mode: Mode)
    requires radix > 0 && x < RPow(radix, E)
    ensures RoundedAt(x, radix, n - E, mode) <= Pow(radix, n)
  {
    hide RPow, Pow, Round, Scale;
    BelowTheTop(x, radix, E, n);
    RoundMono(Scale(x, radix, n - E), Pow(radix, n) as real, mode);
    RoundInt(Pow(radix, n), mode);
  }

  lemma ReachesPower(x: real, radix: nat, n: nat, E: int, mode: Mode)
    requires radix > 0 && x >= RPow(radix, E)
    ensures RoundedAt(x, radix, n - E, mode) >= Pow(radix, n)
  {
    hide RPow, Pow, Round, Scale;
    BelowTheTop(x, radix, E, n);
    RoundMono(Pow(radix, n) as real, Scale(x, radix, n - E), mode);
    RoundInt(Pow(radix, n), mode);
  }

  /** radix^E, with n digits and with one more. */
  lemma SamePower(radix: nat, n: nat, E: int)
    requires radix > 0 && n >= 1
    ensures DigitValue(Pow(radix, n - 1), radix, E + 1, n) == DigitValue(Pow(radix, n), radix, E, n) == RPow(radix, E)
  {
    hide RPow, Pow, Scale;
    PositivePower(radix, n - 1);
    PositivePower(radix, n);
    ScaleUnit(Pow(radix, n - 1) as real, radix, E + 1 - n);
    ScaleUnit(Pow(radix, n) as real, radix, E - n);
    RPowAdd(radix, n - 1, E + 1 - n);
    RPowAdd(radix, n, E - n);
  }

  /** From radix^E0 on, the exponent is the second one. */
  lemma AtSecond(m: nat, e: int, radix: nat, n: nat, mode: Mode)
    requires FinitePair(m, e) && 2 <= radix <= 36 && n >= 1 && mode != Truncate
    requires Double(m, e) >= RPow(radix, FirstExponent(e, radix))
    ensures RoundedAt(Double(m, e), radix, n - FirstExponent(e, radix) - 1, mode) >= 0
    ensures RoundsTo(Double(m, e), radix, n, FirstExponent(e, radix) + 1,
                     RoundedAt(Double(m, e), radix, n - FirstExponent(e, radix) - 1, mode), mode)
  {
    hide Pow, RPow, Scale, FirstExponent, Round, Double, RoundsTo;
    var E0, x := FirstExponent(e, radix), Double(m, e);
    DoubleBounds(m, e);
    ExponentOfPair(m, e);
    ExponentBracket(e, radix);
    RPowStep(2, e - 1);
    RPowStep(radix, E0);
    TwiceBelow(RPow(2, e - 1), RPow(radix, E0), radix);
    AtFirst(x, radix, n, E0 + 1, mode);
  }

  lemma TwiceBelow(a: real, b: real, radix: nat)
    requires 0.0 < a < b && radix >= 2
    ensures 2.0 * a < radix as real * b
  {
    MulGeReal(b, 2.0, radix as real);
  }
}
