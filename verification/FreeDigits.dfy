/** The digits of the free format: how many there are at each precision, and that the
    maximal precision always reads back. */
module FreeDigits {
  import opened Arith
  import opened Rounding
  import opened Float64
  import opened RadixLog
  import opened ToFloat64
  import opened ReadBack

  /** The C code's first choice of the exponent: d < radix^E. */
  function FirstExponent(e: int, radix: nat): int
    requires 2 <= radix <= 36
  {
    1 + MulLog2Radix(e - 1, radix)
  }

  /** The number whose P digits are mant and whose dot stands E digits to the right. */
  ghost function DigitValue(mant: nat, radix: nat, E: int, P: int): real
    requires radix > 0
  {
    Scale(mant as real, radix, E - P)
  }

  /** x rounded to an integer multiple of radix^-k. */
  ghost function RoundedAt(x: real, radix: nat, k: int, mode: Mode): int
    requires radix > 0
  {
    Round(Scale(x, radix, k), mode)
  }

  lemma ExponentBracket(e: int, radix: nat)
    requires 2 <= radix <= 36 && -1073 <= e <= 1024
    ensures var E := FirstExponent(e, radix);
            RPow(radix, E - 1) <= RPow(2, e - 1) < RPow(radix, E)
  {
    hide RPow, MulLog2Radix;
    MulLog2RadixIsFloor(e - 1, radix);
  }

  /** Rounding at radix^-k moves a number by at most half of radix^-k. */
  lemma RoundingError(x: real, radix: nat, k: int, y: real)
    requires radix > 0 && y == Scale(RoundedAt(x, radix, k, NearestEven) as real, radix, -k)
    ensures Abs(y - x) <= 0.5 * RPow(radix, -k)
  {
    hide Round, RPow, Scale;
    var s := Scale(x, radix, k);
    var c := Round(s, NearestEven) as real;
    RoundWithinHalf(s);
    ScaleAdd(x, radix, k, -k);
    ScaleZero(x, radix);
    ScaleSum(c, s, radix, -k);
    ScaleSum(s, c, radix, -k);
    ScaleMono(c - s, 0.5, radix, -k);
    ScaleMono(s - c, 0.5, radix, -k);
    ScaleUnit(0.5, radix, -k);
  }

  lemma ScaleUnit(x: real, b: nat, k: int)
    requires b > 0
    ensures Scale(x, b, k) == x * RPow(b, k)
  {
  }

  lemma RoundWithinHalf(s: real)
    ensures -0.5 <= Round(s, NearestEven) as real - s <= 0.5
  {
  }

  lemma ProductMono(a: real, b: real, c: real, d: real)
    requires 0.0 < a <= b && 0.0 < c <= d
    ensures a * c <= b * d
    ensures a < b ==> a * c < b * d
  {
    MulCompare(c, a, b);
    MulCompare(b, c, d);
  }

  /** radix^(E - P) is at least 2^53 times smaller than radix^(E - 1). */
  lemma DigitStep(radix: nat, E: int, P: int, bound: int)
    requires radix >= 2 && P >= 1 && Pow(radix, P - 1) >= Pow(2, 53)
    requires RPow(radix, E - 1) <= RPow(2, bound)
    ensures RPow(radix, E - P) <= RPow(2, bound - 53)
    ensures RPow(radix, E - 1) < RPow(2, bound) ==> RPow(radix, E - P) < RPow(2, bound - 53)
  {
    hide RPow, Pow;
    NegatePowers(2, radix, 53, P - 1);
    RPowAdd(radix, E - 1, 1 - P);
    RPowAdd(2, bound, -53);
    ProductMono(RPow(radix, E - 1), RPow(2, bound), RPow(radix, 1 - P), RPow(2, -53));
  }

  /** An error of half a unit of the last digit is within a quarter of a grid step. */
  lemma FineDigitsReadBack(m: nat, e: int, radix: nat, E: int, P: int, y: real)
    requires FinitePair(m, e) && y > 0.0
    requires radix >= 2 && P >= 1 && Pow(radix, P - 1) >= Pow(2, 53)
    requires RPow(radix, E - 1) <= RPow(2, e - 1)
    requires Abs(y - Double(m, e)) <= 0.5 * RPow(radix, E - P)
    ensures Nearest(y, Pack(m, e))
  {
    hide RPow, Pow, Nearest, Pack, FinitePair, OnGridOf, Abs;
    DigitStep(radix, E, P, e - 1);
    HalfStepOnGrid(RPow(radix, E - P), e, 1);
    HalfPower();
    GridDistance(Double(m, e), y, e, 0.5 * RPow(radix, E - P));
    PackExact(m, e);
    QuarterStep(m, e, y);
  }

  lemma HalfPower()
    ensures RPow(2, -1) == 0.5 && RPow(2, 0) == 1.0
  {
    RPowStep(2, -1);
  }

  /** When d has one digit more, the step is ten times coarser but d is larger too. */
  lemma CoarseDigitsReadBack(m: nat, e: int, radix: nat, E: int, P: int, y: real)
    requires FinitePair(m, e)
    requires radix >= 2 && P >= 1 && Pow(radix, P - 1) >= Pow(2, 53)
    requires RPow(2, e - 1) < RPow(radix, E - 1) <= y
    requires RPow(radix, E - 1) <= Double(m, e)
    requires Abs(y - Double(m, e)) <= 0.5 * RPow(radix, E - P)
    ensures Nearest(y, Pack(m, e))
  {
    hide RPow, Pow, Nearest, Pack, OnGridOf, Abs, Scale;
    DoubleBounds(m, e);
    DigitStep(radix, E, P, e);
    HalfStepOnGrid(RPow(radix, E - P), e, 0);
    HalfPower();
    GridDistance(Double(m, e), y, e, 0.5 * RPow(radix, E - P));
    PackExact(m, e);
    GridPositive(y, e);
    AboveThePower(y, e);
    NearOnGrid(y, e, GridMantissa(m, e));
  }

  lemma AboveThePower(y: real, e: int)
    requires RPow(2, e - 1) <= y
    ensures GridExponent(e) > 0 ==> OnGridOf(y, e) >= P52 as real
  {
    hide RPow, Pow, OnGridOf, Scale;
    var s := 1074 - GridExponent(e);
    GridIsScale(y, e);
    ScaleMono(RPow(2, e - 1), y, 2, s);
    ScaleUnit(RPow(2, e - 1), 2, s);
    RPowAdd(2, e - 1, s);
    PositivePower(2, 52);
    TwoTo53();
  }

  // ----- the two attempts at a precision -----

  /** s is d * radix^(P - E) at the first exponent; at the next one it is s / radix. */
  lemma SecondAttempt(s: real, s': real, radix: nat, P: nat, mode: Mode)
    requires mode != Truncate && radix >= 2 && P >= 1 && s' * radix as real == s
    requires Pow(radix, P) as real - 0.5 <= s < 2.0 * Pow(radix, P) as real
    ensures Pow(radix, P - 1) <= Round(s', mode) <= 2 * Pow(radix, P - 1)
    ensures s < Pow(radix, P) as real ==> Round(s', mode) == Pow(radix, P - 1)
  {
    hide Pow, Round;
    PowPred(radix, P);
    var q := Pow(radix, P - 1);
    DividedBounds(s, s', radix as real, q as real);
    RoundNear(s', q, mode);
    RoundMono(s', (2 * q) as real, mode);
    RoundInt(2 * q, mode);
  }

  lemma DividedBounds(s: real, s': real, r: real, q: real)
    requires r >= 2.0 && s' * r == s && r * q - 0.5 <= s < 2.0 * (r * q)
    ensures -0.25 <= s' - q && s' < 2.0 * q
    ensures s < r * q ==> s' < q
  {
    assert (s' - q) * r == s - r * q;
    MulCompare(r, s', 2.0 * q);
    MulCompare(r, s', q);
    if s' - q < -0.25 {
      MulCompare(r, s' - q, -0.25);
    }
  }

  lemma RoundNear(s: real, q: nat, mode: Mode)
    requires mode != Truncate
    ensures s - q as real >= -0.25 ==> Round(s, mode) >= q
    ensures -0.25 <= s - q as real < 0.5 ==> Round(s, mode) == q
  {
  }

  /** d measured in units of its P-th digit, at the first exponent. */
  lemma FirstSize(m: nat, e: int, radix: nat, P: nat)
    requires FinitePair(m, e) && 2 <= radix <= 36 && P >= 1
    ensures var s := Scale(Double(m, e), radix, P - FirstExponent(e, radix));
            Pow(radix, P - 1) as real <= s < 2.0 * Pow(radix, P) as real
  {
    hide RPow, Pow, Scale, FirstExponent;
    var E, x := FirstExponent(e, radix), Double(m, e);
    ExponentBracket(e, radix);
    DoubleBounds(m, e);
    RPowStep(2, e - 1);
    ScaleMono(RPow(radix, E - 1), x, radix, P - E);
    ScaleMono(x, 2.0 * RPow(radix, E), radix, P - E);
    ScaleUnit(RPow(radix, E - 1), radix, P - E);
    ScaleUnit(2.0 * RPow(radix, E), radix, P - E);
    RPowAdd(radix, E - 1, P - E);
    RPowAdd(radix, E, P - E);
    PositivePower(radix, P - 1);
    PositivePower(radix, P);
  }

  /** The mantissa of the first attempt is positive and at most twice too large. */
  lemma FirstMantissa(m: nat, e: int, radix: nat, P: nat, mode: Mode)
    requires mode != Truncate && FinitePair(m, e) && 2 <= radix <= 36 && P >= 1
    ensures Pow(radix, P - 1) <= RoundedAt(Double(m, e), radix, P - FirstExponent(e, radix), mode) <= 2 * Pow(radix, P)
  {
    hide Pow, Scale, FirstExponent, Round, Double;
    FirstSize(m, e, radix, P);
    var s := Scale(Double(m, e), radix, P - FirstExponent(e, radix));
    RoundMono(Pow(radix, P - 1) as real, s, mode);
    RoundInt(Pow(radix, P - 1), mode);
    RoundMono(s, (2 * Pow(radix, P)) as real, mode);
    RoundInt(2 * Pow(radix, P), mode);
  }

  lemma RoundedDown(s: real, k: int, mode: Mode)
    requires mode != Truncate && Round(s, mode) >= k
    ensures s >= k as real - 0.5
  {
  }

  lemma ScaleDown(x: real, b: nat, k: int)
    requires b > 0
    ensures Scale(x, b, k - 1) * b as real == Scale(x, b, k)
  {
    hide RPow;
    RPowStep(b, k - 1);
    MulSwap(x, RPow(b, k - 1), b as real);
  }

  /** In base two the first exponent is the exponent of d. */
  lemma BinaryExponent(e: int)
    ensures FirstExponent(e, 2) == e
  {
  }

  /** When the first mantissa has a digit too many, the second one has not: the exponent is
      raised at most once. */
  lemma SecondMantissa(m: nat, e: int, radix: nat, P: nat, mode: Mode)
    requires mode != Truncate && FinitePair(m, e) && 2 <= radix <= 36 && P >= 1
    requires RoundedAt(Double(m, e), radix, P - FirstExponent(e, radix), mode) >= Pow(radix, P)
    ensures Pow(radix, P - 1) <= RoundedAt(Double(m, e), radix, P - FirstExponent(e, radix) - 1, mode) < Pow(radix, P)
    ensures Double(m, e) < RPow(radix, FirstExponent(e, radix)) ==>
            RoundedAt(Double(m, e), radix, P - FirstExponent(e, radix) - 1, mode) == Pow(radix, P - 1)
  {
    hide Pow, RPow, Scale, FirstExponent, Round, Double;
    var E, x := FirstExponent(e, radix), Double(m, e);
    FirstSize(m, e, radix, P);
    var s, s' := Scale(x, radix, P - E), Scale(x, radix, P - E - 1);
    RoundedDown(s, Pow(radix, P), mode);
    ScaleDown(x, radix, P - E);
    SecondAttempt(s, s', radix, P, mode);
    PowPred(radix, P);
    BelowTheTop(x, radix, E, P);
    if radix == 2 {
      BinaryExponent(e);
      DoubleBounds(m, e);
    } else {
      MulGe(Pow(radix, P - 1), 3, radix);
    }
  }

  lemma BelowTheTop(x: real, radix: nat, E: int, P: nat)
    requires radix > 0
    ensures x < RPow(radix, E) <==> Scale(x, radix, P - E) < Pow(radix, P) as real
  {
    hide Pow, RPow, Scale;
    ScaleMono(x, RPow(radix, E), radix, P - E);
    ScaleUnit(RPow(radix, E), radix, P - E);
    RPowAdd(radix, E, P - E);
    PositivePower(radix, P);
  }

  /** mant * radix^(E - P) is d correctly rounded to P digits: rounded at the first exponent,
      or at the next one when that has a digit too many. */
  ghost predicate RoundedTo(x: real, radix: nat, E0: int, P: nat, mant: nat, E: int, mode: Mode)
    requires radix > 0
  {
    && mant == RoundedAt(x, radix, P - E, mode)
    && 0 < mant < Pow(radix, P)
    && (E == E0 || (E == E0 + 1 && RoundedAt(x, radix, P - E0, mode) >= Pow(radix, P)))
  }

  /** The first precision tried always reads back, as the C code assumes unchecked. */
  lemma MaxDigitsReadBack(m: nat, e: int, radix: nat, mant: nat, E: int, y: real)
    requires FinitePair(m, e) && 2 <= radix <= 36
    requires RoundedTo(Double(m, e), radix, FirstExponent(e, radix), DtoaMaxDigits(radix), mant, E, NearestEven)
    requires y == DigitValue(mant, radix, E, DtoaMaxDigits(radix))
    ensures Nearest(y, Pack(m, e))
  {
    hide Pow, RPow, Scale, FirstExponent, Double, Nearest, Pack, FinitePair, DtoaMaxDigits;
    var P, E0, x := DtoaMaxDigits(radix), FirstExponent(e, radix), Double(m, e);
    DigitTables(radix);
    ExponentOfPair(m, e);
    ExponentBracket(e, radix);
    DoubleBounds(m, e);
    RoundingError(x, radix, P - E, y);
    if E == E0 {
      FineDigitsReadBack(m, e, radix, E0, P, y);
    } else {
      SecondMantissa(m, e, radix, P, NearestEven);
      if x < RPow(radix, E0) {
        RoundedUpToPower(m, e, radix, P, y);
        FineDigitsReadBack(m, e, radix, E0, P, y);
      } else {
        AtLeastPower(mant, radix, E0, P, y);
        CoarseDigitsReadBack(m, e, radix, E0 + 1, P, y);
      }
    }
  }

  lemma ExponentOfPair(m: nat, e: int)
    requires FinitePair(m, e)
    ensures P52 <= m < P53 && -1073 <= e <= 1024
  {
  }

  lemma AtLeastPower(mant: nat, radix: nat, E: int, P: nat, y: real)
    requires radix > 0 && P >= 1 && mant >= Pow(radix, P - 1)
    requires y == DigitValue(mant, radix, E + 1, P)
    ensures RPow(radix, E) <= y
    ensures mant == Pow(radix, P - 1) ==> y == RPow(radix, E)
  {
    hide Pow, RPow, Scale;
    ScaleMono(Pow(radix, P - 1) as real, mant as real, radix, E + 1 - P);
    ScaleUnit(Pow(radix, P - 1) as real, radix, E + 1 - P);
    PositivePower(radix, P - 1);
    RPowAdd(radix, P - 1, E + 1 - P);
  }

  /** Rounding up to a power of the radix is as exact as the digits of the first attempt. */
  lemma RoundedUpToPower(m: nat, e: int, radix: nat, P: nat, y: real)
    requires FinitePair(m, e) && 2 <= radix <= 36 && P >= 1
    requires var E0 := FirstExponent(e, radix); var x := Double(m, e);
             && RoundedAt(x, radix, P - E0, NearestEven) >= Pow(radix, P) && x < RPow(radix, E0)
             && y == DigitValue(RoundedAt(x, radix, P - E0 - 1, NearestEven), radix, E0 + 1, P)
    ensures y > 0.0
    ensures Abs(y - Double(m, e)) <= 0.5 * RPow(radix, FirstExponent(e, radix) - P)
  {
    hide Pow, RPow, Scale, FirstExponent, Round, Double;
    var E0, x := FirstExponent(e, radix), Double(m, e);
    SecondMantissa(m, e, radix, P, NearestEven);
    AtLeastPower(Pow(radix, P - 1), radix, E0, P, y);
    var s := Scale(x, radix, P - E0);
    RoundedDown(s, Pow(radix, P), NearestEven);
    ScaleAdd(x, radix, P - E0, E0 - P);
    ScaleZero(x, radix);
    var top := Pow(radix, P) as real;
    ScaleUnit(top, radix, E0 - P);
    PositivePower(radix, P);
    RPowAdd(radix, P, E0 - P);
    ScaleSum(top, s, radix, E0 - P);
    ScaleMono(top - s, 0.5, radix, E0 - P);
    ScaleUnit(0.5, radix, E0 - P);
    assert y == RPow(radix, E0) == Scale(top, radix, E0 - P);
    assert x == Scale(s, radix, E0 - P);
    assert x < y;
  }
}
