/** Buffer sizes: no intermediate number of the conversions outgrows DBIGNUM_LEN_MAX limbs,
    scratch limbs included. */
module Capacity {
  import opened Arith
  import opened Limbs
  import opened Rounding
  import opened Bignum
  import opened RadixLog
  import opened Powers
  import opened Scaling
  import opened Float64
  import opened ToFloat64
  import opened ReadBack
  import opened FreeDigits

  const DBIGNUM_LEN_MAX: nat := 52

  // ----- radix = radix1 * 2^radixShift -----

  function Ctz32(n: nat): nat
    requires n > 0
  {
    if n % 2 == 1 then 0 else 1 + Ctz32(n / 2)
  }

  /** The odd part of the radix. */
  function Radix1(radix: nat): nat
    requires radix > 0
  {
    if radix % 2 == 1 then radix else Radix1(radix / 2)
  }

  lemma {:induction false} SplitRadix(radix: nat)
    requires radix > 0
    ensures Radix1(radix) % 2 == 1 && 1 <= Radix1(radix) <= radix
    ensures radix == Radix1(radix) * Pow(2, Ctz32(radix))
  {
    if radix % 2 == 0 {
      SplitRadix(radix / 2);
      assert Radix1(radix) * (2 * Pow(2, Ctz32(radix / 2))) == 2 * (Radix1(radix) * Pow(2, Ctz32(radix / 2)));
    }
  }

  lemma RadixParts(radix: nat)
    requires 2 <= radix <= 36
    ensures OddPart(Radix1(radix)) && 1 <= Radix1(radix) <= radix
    ensures radix == Radix1(radix) * Pow(2, Ctz32(radix))
  {
    SplitRadix(radix);
  }

  // ----- sizes as powers of two -----

  lemma BufferSize()
    ensures Pow(BASE, DBIGNUM_LEN_MAX - 1) == Pow(2, 1632) && Pow(BASE, DBIGNUM_LEN_MAX) == Pow(2, 1664)
  {
    hide Pow;
    BaseIsPow2();
    PowOfPow(2, 32, DBIGNUM_LEN_MAX - 1);
    PowOfPow(2, 32, DBIGNUM_LEN_MAX);
  }

  lemma ProductOfPowers(x: nat, y: nat, a: nat, b: nat, c: nat)
    requires x < Pow(2, a) && y <= Pow(2, b) && a + b <= c
    ensures x * y < Pow(2, c)
  {
    hide Pow;
    PowAdd(2, a, b);
    PowMono(2, a + b, c);
    MulGe(x, y, Pow(2, b));
    MulMono(x + 1, Pow(2, a), Pow(2, b), Pow(2, b));
  }

  /** A division by less than 2^n removes about n / 27 limbs. */
  lemma LimbBoundSmall(radix1: nat, f0: nat, n: nat)
    requires OddPart(radix1) && radix1 != 1 && Pow(radix1, f0) < Pow(2, n)
    ensures 27 * (LimbBound(radix1, f0) - 1) < n
  {
    hide Pow, DigitsPerLimb, OddPart, CeilDivide;
    OddDigits(radix1, 0);
    var d, l := DigitsPerLimb(radix1), LimbBound(radix1, f0);
    if l >= 1 {
      assert d * (l - 1) <= f0;
      PowMono(radix1, d * (l - 1), f0);
      PowOfPow(radix1, d, l - 1);
      PowBaseMono(Pow(2, 27), Pow(radix1, d), l - 1);
      PowOfPow(2, 27, l - 1);
      if 27 * (l - 1) >= n {
        PowMono(2, n, 27 * (l - 1));
      }
    }
  }

  /** Room for a division: v needs a bits, the divisor n bits. */
  lemma DivisionRoom(v: nat, radix1: nat, radixShift: nat, f: int, isInt: bool, e: int, a: nat, n: nat)
    requires OddPart(radix1) && radix1 != 1 && f < 0 && 0 < v < Pow(2, a)
    requires Pow(radix1, -f) < Pow(2, n)
    requires isInt ==> e <= 1000 && a + 1002 <= 1632
    requires 32 * (n / 27 + 1) + (if isInt || a > e then a else e + 1) <= 1632
    ensures MulPowRoom(v, DBIGNUM_LEN_MAX, radix1, radixShift, f, isInt, e)
  {
    hide Pow, OddPart, BitLen, LimbBound;
    BufferSize();
    LimbBoundSmall(radix1, -f, n);
    var grow := GrowBits(v, radix1, radixShift, -f, isInt, e);
    BitLenAtMost(v, a);
    GrowFits(v, radix1, radixShift, -f, isInt, e, a);
    ProductOfPowers(v, Pow(2, grow), BitLen(v), grow, 1632);
  }

  lemma BitLenAtMost(v: nat, a: nat)
    requires 0 < v < Pow(2, a)
    ensures 1 <= BitLen(v) <= a && v < Pow(2, BitLen(v))
  {
    hide Pow, BitLen;
    BitLenBounds(v);
    if BitLen(v) > a {
      PowMono(2, a, BitLen(v) - 1);
    }
  }

  lemma GrowFits(v: nat, radix1: nat, radixShift: nat, f0: nat, isInt: bool, e: int, a: nat)
    requires OddPart(radix1) && radix1 != 1 && 1 <= BitLen(v) <= a
    requires isInt ==> e <= 1000 && a + 1002 <= 1632
    requires 32 * LimbBound(radix1, f0) + (if isInt || a > e then a else e + 1) <= 1632
    ensures GrowBits(v, radix1, radixShift, f0, isInt, e) + BitLen(v) <= 1632
  {
    hide Pow, OddPart, BitLen, LimbBound;
    MulGe(f0, 0, radixShift);
  }

  /** radix1^f is at most radix^f. */
  lemma OddPower2(radix: nat, f: nat)
    requires 2 <= radix <= 36
    ensures Pow(Radix1(radix), f) <= Pow(radix, f)
  {
    hide Pow, Radix1;
    RadixParts(radix);
    PowBaseMono(Radix1(radix), radix, f);
  }

  // ----- powers of the radix near a float64 -----

  lemma RealToNat(radix: nat, f: nat, n: nat)
    requires radix > 0 && RPow(radix, f) <= RPow(2, n)
    ensures Pow(radix, f) <= Pow(2, n)
  {
    hide Pow, RPow;
    PositivePower(radix, f);
    PositivePower(2, n);
  }

  /** radix^E0 is at most 64 times 2^(e - 1). */
  lemma PowerUp(e: int, radix: nat)
    requires 2 <= radix <= 36 && -1073 <= e <= 1024
    ensures RPow(radix, FirstExponent(e, radix)) <= RPow(2, e + 5)
  {
    hide RPow, FirstExponent;
    var E := FirstExponent(e, radix);
    ExponentBracket(e, radix);
    RPowStep(radix, E - 1);
    RPowAdd(2, e - 1, 6);
    SixtyFour();
    ProductMono(radix as real, 64.0, RPow(radix, E - 1), RPow(2, e - 1));
  }

  lemma SixtyFour()
    ensures RPow(2, 6) == 64.0
  {
    FastPowIsPow(2, 6);
  }

  /** radix^(P - E0) is less than radix^P * 2^(1 - e). */
  lemma PowerDown(e: int, radix: nat, P: nat, a: nat)
    requires 2 <= radix <= 36 && -1073 <= e <= 1024 && Pow(radix, P) <= Pow(2, a)
    ensures RPow(radix, P - FirstExponent(e, radix)) <= RPow(2, a + 1 - e)
  {
    hide Pow, RPow, FirstExponent;
    var E := FirstExponent(e, radix);
    ExponentBracket(e, radix);
    PositivePower(radix, P);
    PositivePower(2, a);
    RPowAdd(radix, P, -E);
    RPowAdd(2, a, 1 - e);
    RPowInverse(radix, E);
    RPowInverse(2, e - 1);
    InverseMono(RPow(2, 1 - e), RPow(radix, -E), RPow(2, e - 1), RPow(radix, E));
    ProductMono(RPow(radix, P), RPow(2, a), RPow(radix, -E), RPow(2, 1 - e));
  }

  /** Upper bounds for the two directions of scaling in js_dtoa. */
  lemma ScaleUpBound(e: int, radix: nat, P: nat, E: int, a: nat)
    requires 2 <= radix <= 36 && -1073 <= e <= 1024 && Pow(radix, P) <= Pow(2, a)
    requires E >= FirstExponent(e, radix)
    ensures P >= E ==> Pow(radix, P - E) <= Pow(2, a + 1074)
  {
    hide Pow, RPow, FirstExponent;
    if P >= E {
      PowerDown(e, radix, P, a);
      RPowMono(radix, P - E, P - FirstExponent(e, radix));
      RPowMono(2, a + 1 - e, a + 1074);
      RealToNat(radix, P - E, a + 1074);
    }
  }

  lemma ScaleDownBound(e: int, radix: nat, P: nat, E: int)
    requires 2 <= radix <= 36 && -1073 <= e <= 1024
    requires E <= FirstExponent(e, radix) + 1 && P >= 1
    ensures E >= P ==> Pow(radix, E - P) <= Pow(2, 1029)
  {
    hide Pow, RPow, FirstExponent;
    if E >= P {
      PowerUp(e, radix);
      RPowMono(radix, E - P, FirstExponent(e, radix));
      RPowMono(2, e + 5, 1029);
      RealToNat(radix, E - P, 1029);
    }
  }

  /** The exact branch of mul_pow_round ends with the number itself. */
  lemma ExactProductBound(m: nat, e: int, radix: nat, f: int, b: nat)
    requires 2 <= radix <= 36
    requires var radix1, radixShift := Radix1(radix), Ctz32(radix);
             (f >= 0 || radix1 == 1) && e + f * radixShift > 0
    requires Number(m, radix, f, e) < RPow(2, b)
    ensures var radix1, radixShift := Radix1(radix), Ctz32(radix);
            (if radix1 == 1 then m else m * Pow(radix1, f)) * Pow(2, e + f * radixShift) < Pow(2, b)
  {
    hide Pow, RPow, Scale, Number, Scaled, Radix1, Ctz32, OddPart;
    var radix1, radixShift := Radix1(radix), Ctz32(radix);
    RadixParts(radix);
    var k := -f * radixShift;
    assert k == -(f * radixShift);
    UpIsExact(m, radix1, radixShift, f, k);
    ScaledIsNumber(m, radix1, radixShift, f, k, radix);
    var v := if radix1 == 1 then m else m * Pow(radix1, f);
    NumberShift(m, radix, f, k, e);
    ScaleNat(v, 2, e - k);
    PositivePower(2, b);
  }

  /** d * radix^f, as mul_pow_round computes it. */
  lemma DoubleTimesPower(m: nat, e: int, radix: nat, f: int)
    requires radix > 0
    ensures Number(m, radix, f, e - 53) == Scale(Double(m, e), radix, f)
  {
    hide RPow, Scale;
    ScaleSwap(m as real, radix, f, 2, e - 53);
  }

  /** mul_pow_round has room whenever P digits of d are wanted. */
  lemma RoundingRoom(m: nat, e: int, radix: nat, P: nat, E: int, a: nat)
    requires FinitePair(m, e) && 2 <= radix <= 36 && P >= 1
    requires Pow(radix, P) <= Pow(2, a) && a <= 530
    requires FirstExponent(e, radix) <= E <= FirstExponent(e, radix) + 1
    ensures OddPart(Radix1(radix)) && RoundRoom(m, DBIGNUM_LEN_MAX, e - 53, Radix1(radix), Ctz32(radix), P - E)
  {
    hide Pow, RPow, Scale, Number, FirstExponent, Radix1, Ctz32, OddPart, MulPowRoom, FinitePair, Double;
    ExponentOfPair(m, e);
    RadixParts(radix);
    BufferSize();
    TwoTo53();
    var radix1, f := Radix1(radix), P - E;
    PairRoom(m, e, radix, P, E, a);
    if (f >= 0 || radix1 == 1) && e - 53 + f * Ctz32(radix) > 0 {
      DoubleTimesPower(m, e, radix, f);
      DigitsBound(m, e, radix, P, E, a);
      ExactProductBound(m, e - 53, radix, f, a + 1);
      PowMono(2, a + 1, 1632);
    }
  }

  lemma PairRoom(m: nat, e: int, radix: nat, P: nat, E: int, a: nat)
    requires P52 <= m < P53 && -1073 <= e <= 1024 && 2 <= radix <= 36 && P >= 1
    requires Pow(radix, P) <= Pow(2, a) && a <= 530
    requires FirstExponent(e, radix) <= E <= FirstExponent(e, radix) + 1
    ensures OddPart(Radix1(radix)) && MulPowRoom(m, DBIGNUM_LEN_MAX, Radix1(radix), Ctz32(radix), P - E, true, e - 53)
  {
    hide Pow, FirstExponent, Radix1, Ctz32, OddPart;
    RadixParts(radix);
    BufferSize();
    TwoTo53();
    var radix1, f := Radix1(radix), P - E;
    if radix1 != 1 {
      if f >= 0 {
        ScaleUpBound(e, radix, P, E, a);
        OddPower2(radix, f);
        ProductOfPowers(m, Pow(radix1, f), 53, a + 1074, 1664);
      } else {
        ScaleDownBound(e, radix, P, E);
        OddPower2(radix, -f);
        PowMono(2, 1030, 1030);
        PowDouble(1029);
        DivisionRoom(m, radix1, Ctz32(radix), f, true, e - 53, 53, 1030);
      }
    }
  }

  /** d has at most P digits before the place where it is rounded. */
  lemma DigitsBound(m: nat, e: int, radix: nat, P: nat, E: int, a: nat)
    requires FinitePair(m, e) && 2 <= radix <= 36 && P >= 1
    requires Pow(radix, P) <= Pow(2, a)
    requires E >= FirstExponent(e, radix)
    ensures Scale(Double(m, e), radix, P - E) < RPow(2, a + 1)
  {
    hide Pow, RPow, Scale, FirstExponent, FinitePair;
    ExponentOfPair(m, e);
    FirstSize(m, e, radix, P);
    ScaleExpMono(Double(m, e), radix, P - E, P - FirstExponent(e, radix));
    PositivePower(2, a + 1);
    PowDouble(a);
    DoubleBounds(m, e);
  }

  /** Converting P digits back has room. */
  lemma BackRoom(mant: nat, e: int, radix: nat, P: nat, E: int)
    requires -1073 <= e <= 1024 && 2 <= radix <= 36 && P >= 1
    requires 0 < mant < Pow(radix, P) && Pow(radix, P) <= Pow(2, 63)
    requires FirstExponent(e, radix) <= E <= FirstExponent(e, radix) + 1
    ensures OddPart(Radix1(radix)) && MulPowRoom(mant, DBIGNUM_LEN_MAX, Radix1(radix), Ctz32(radix), E - P, false, 55)
  {
    hide Pow, FirstExponent, Radix1, Ctz32, OddPart;
    RadixParts(radix);
    BufferSize();
    var radix1, f := Radix1(radix), E - P;
    if radix1 != 1 {
      if f >= 0 {
        ScaleDownBound(e, radix, P, E);
        OddPower2(radix, f);
        ProductOfPowers(mant, Pow(radix1, f), 63, 1029, 1664);
      } else {
        ScaleUpBound(e, radix, P, E, 63);
        OddPower2(radix, -f);
        PowDouble(1137);
        DivisionRoom(mant, radix1, Ctz32(radix), f, false, 55, 63, 1138);
      }
    }
  }
}
