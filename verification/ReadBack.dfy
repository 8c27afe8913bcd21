/** Why enough digits identify a float64: numbers close to a float64 are nearest to it, and
    the correctly rounded P-digit number is close when radix^(P-1) >= 2^53. */
module ReadBack {
  import opened Arith
  import opened Rounding
  import opened Float64
  import opened RadixLog
  import opened ToFloat64

  /** The number m * 2^(e - 53). */
  ghost function Double(m: nat, e: int): real {
    Scale(m as real, 2, e - 53)
  }

  /** (m, e) is a positive finite float64, normalised even when subnormal. */
  predicate FinitePair(m: nat, e: int) {
    m > 0 && e <= 1024 && Normalised(m, e)
  }

  /** The mantissa on the grid of exponent e. */
  function GridMantissa(m: nat, e: int): nat {
    if e < -1021 then m / Pow(2, -e - 1021) else m
  }

  lemma DoubleBounds(m: nat, e: int)
    requires P52 <= m < P53
    ensures RPow(2, e - 1) <= Double(m, e) < RPow(2, e)
  {
    hide Pow, RPow, Scale;
    TwoTo53();
    ScaledBounds(m as real, 2, 52, 53, e - 53);
  }

  /** The pattern of a float64, and its place on its own grid. */
  lemma PackExact(m: nat, e: int)
    requires FinitePair(m, e)
    ensures Pack(m, e) == GridExponent(e) * P52 + GridMantissa(m, e)
    ensures GridMantissa(m, e) < P53 && (GridExponent(e) > 0 ==> GridMantissa(m, e) == m)
    ensures GridExponent(e) <= 2045
    ensures OnGridOf(Double(m, e), e) == GridMantissa(m, e) as real
  {
    hide Pow, RPow, Scale;
    ScaleAdd(m as real, 2, e - 53, 1074);
    ScaleAdd(m as real, 2, e + 1021, -GridExponent(e));
    if e < -1021 {
      var k := -e - 1021;
      ScaleNat(m / Pow(2, k), 2, k);
      ScaleAdd((m / Pow(2, k)) as real, 2, k, -k);
      ScaleZero((m / Pow(2, k)) as real, 2);
      ExactQuotient(m, Pow(2, k));
    } else {
      ScaleZero(m as real, 2);
      PackFields(m);
    }
  }

  lemma PackFields(m: nat)
    requires P52 <= m < P53
    ensures m % P52 == m - P52
  {
  }

  lemma ExactQuotient(m: nat, p: nat)
    requires p > 0 && m % p == 0
    ensures (m / p) * p == m && m / p <= m
  {
    MulGe(m / p, 1, p);
  }

  /** Closer than half a grid step. */
  lemma NearOnGrid(y: real, e: int, k: nat)
    requires GridExponent(e) <= 2045 && k < P53
    requires Abs(OnGridOf(y, e) - k as real) < 0.5 && OnGridOf(y, e) >= 0.0
    requires GridExponent(e) == 0 || OnGridOf(y, e) >= P52 as real
    ensures Nearest(y, GridExponent(e) * P52 + k)
  {
    hide Nearest, Scale, InUnits;
    NearestByRounding(y, GridExponent(e), k);
  }

  /** Just below a power of two the grid is twice as fine; at most a quarter step of the
      coarse grid is still nearest, the tie going to the even pattern. */
  lemma NearBelowPower(y: real, e: int)
    requires 0 < GridExponent(e) <= 2045
    requires P52 as real - 0.25 <= OnGridOf(y, e) < P52 as real
    ensures Nearest(y, GridExponent(e) * P52 + P52)
  {
    hide Nearest, Scale, InUnits;
    var u := GridExponent(e);
    ScaleAdd(InUnits(y), 2, -u, 1);
    ScaleTwice(OnGridOf(y, e));
    NearestByRounding(y, u - 1, P53);
  }

  lemma ScaleTwice(x: real)
    ensures Scale(x, 2, 1) == 2.0 * x
  {
    RPowStep(2, 0);
  }

  /** A number within a quarter step of a float64 reads back as that float64. */
  lemma QuarterStep(m: nat, e: int, y: real)
    requires FinitePair(m, e) && y > 0.0
    requires Abs(OnGridOf(y, e) - GridMantissa(m, e) as real) <= 0.25
    ensures Nearest(y, Pack(m, e))
  {
    hide Nearest, Scale, InUnits, Pack, FinitePair;
    PackExact(m, e);
    GridPositive(y, e);
    if GridExponent(e) == 0 || OnGridOf(y, e) >= P52 as real {
      NearOnGrid(y, e, GridMantissa(m, e));
    } else {
      MantissaOfPair(m, e);
      NearBelowPower(y, e);
    }
  }

  lemma MantissaOfPair(m: nat, e: int)
    requires FinitePair(m, e)
    ensures m >= P52
  {
  }

  lemma GridPositive(y: real, e: int)
    requires y > 0.0
    ensures OnGridOf(y, e) > 0.0
  {
  }

  /** Distances move to the grid by scaling. */
  lemma GridDistance(x: real, y: real, e: int, bound: real)
    requires Abs(y - x) <= bound
    ensures Abs(OnGridOf(y, e) - OnGridOf(x, e)) <= OnGridOf(bound, e)
  {
    hide Scale;
    var u := GridExponent(e);
    GridIsScale(x, e);
    GridIsScale(y, e);
    GridIsScale(bound, e);
    ScaleSum(y, x, 2, 1074 - u);
    ScaleSum(x, y, 2, 1074 - u);
    ScaleMono(y - x, bound, 2, 1074 - u);
    ScaleMono(x - y, bound, 2, 1074 - u);
  }

  lemma GridIsScale(x: real, e: int)
    ensures OnGridOf(x, e) == Scale(x, 2, 1074 - GridExponent(e))
  {
    hide Scale;
    ScaleAdd(x, 2, 1074, -GridExponent(e));
  }

  /** A bound of h/2 with h <= 2^(e - 53 - j) is at most 2^-(j + 1) grid steps. */
  lemma HalfStepOnGrid(h: real, e: int, j: int)
    requires h <= RPow(2, e - 53 - j)
    ensures OnGridOf(0.5 * h, e) <= 0.5 * RPow(2, -j)
    ensures h < RPow(2, e - 53 - j) ==> OnGridOf(0.5 * h, e) < 0.5 * RPow(2, -j)
  {
    hide RPow;
    var s := 1074 - GridExponent(e);
    GridIsScale(0.5 * h, e);
    RPowAdd(2, e - 53 - j, s);
    RPowMono(2, e - 53 - j + s, -j);
    ScaleMono(0.5 * h, 0.5 * RPow(2, e - 53 - j), 2, s);
    HalfProduct(RPow(2, e - 53 - j), RPow(2, s));
  }

  lemma HalfProduct(x: real, y: real)
    ensures (0.5 * x) * y == 0.5 * (x * y)
  {
  }
}
