/** The free format of js_dtoa: the search for the digits to print. */
module DtoaFree {
  import opened Arith
  import opened Limbs
  import opened Rounding
  import opened Bignum
  import opened RadixLog
  import opened Powers
  import opened Scaling
  import opened Float64
  import opened ToFloat64
  import opened ReadBack
  import opened FreeDigits
  import opened Capacity

  /** mul_pow_round_to_d: (m, e) is the float64 nearest to a * radix^f. */
  method MulPowRoundToD(a: Mpb, radix1: nat, radixShift: nat, f: int, ghost radix: nat) returns (m: nat, e: int)
    requires a.Valid() && a.Normal() && a.Value() > 0 && a.tab.Length >= 3
    requires OddPart(radix1) && radix == radix1 * Pow(2, radixShift)
    requires MulPowRoom(a.Value(), a.tab.Length, radix1, radixShift, f, false, 55)
    modifies a`len, a.tab
    ensures radix > 0 && Normalised(m, e)
    ensures Nearest(Scale(old(a.Value()) as real, radix, f), Pack(m, e))
  {
    hide Pow, Scaled, Sticky, Scale, OddPart, Nearest, Pack, Represents, Normalised, Number;
    ghost var v := a.Value();
    var eOffset := MulPow(a, radix1, radixShift, f, false, 55);
    OddPositive(radix1);
    ScaledIsNumber(v, radix1, radixShift, f, eOffset, radix);
    RepresentsNumber(v, radix, f, eOffset, a.Value());
    m, e := RoundToD(a, eOffset, Scale(v as real, radix, f));
  }

  lemma RepresentsNumber(v: nat, radix: nat, f: int, k: int, w: nat)
    requires radix > 0 && v > 0
    requires (w > 0 && w as real == Number(v, radix, f, k)) || (w == Sticky(Number(v, radix, f, k)) && w >= Pow(2, 55))
    ensures Represents(w, Scale(v as real, radix, f), k)
  {
    hide Scale;
    TwoTo55();
  }

  /** One precision: the mantissa at the first exponent that holds it, and that exponent. */
  method TryDigits(tmp: Mpb, m: nat, e: int, radix: nat, P: nat, E0: int) returns (mant: nat, E: int)
    requires FinitePair(m, e) && 2 <= radix <= 36 && 1 <= P < BASE && 2 * Pow(radix, P) < DBASE
    requires E0 == FirstExponent(e, radix) && tmp.tab.Length == DBIGNUM_LEN_MAX
    modifies tmp`len, tmp.tab
    ensures RoundedTo(Double(m, e), radix, E0, P, mant, E, NearestEven)
  {
    hide Pow, RPow, Scale, Round, Number, FirstExponent, Radix1, Ctz32, OddPart, FinitePair, Double, RoundRoom;
    ExponentOfPair(m, e);
    RadixParts(radix);
    PowPositive(radix, P);
    FitsHalf(radix, P);
    var mantMax := PowUi(radix, P);
    E := E0;
    FirstMantissa(m, e, radix, P, NearestEven);
    while true
      invariant tmp.tab.Length == DBIGNUM_LEN_MAX
      invariant E == E0 || (E == E0 + 1 && RoundedAt(Double(m, e), radix, P - E0, NearestEven) >= Pow(radix, P))
      decreases E0 + 1 - E
    {
      if E == E0 + 1 {
        SecondMantissa(m, e, radix, P, NearestEven);
      }
      RoundingRoom(m, e, radix, P, E, 63);
      MulPowRound(tmp, m, e - 53, Radix1(radix), Ctz32(radix), P - E, NearestEven, radix);
      DoubleTimesPower(m, e, radix, P - E);
      mant := tmp.GetU64();
      if mant < mantMax {
        break;
      }
      E := E + 1;
    }
  }

  lemma FitsHalf(radix: nat, P: nat)
    requires 2 * Pow(radix, P) < DBASE
    ensures Pow(radix, P) <= Pow(2, 63)
  {
    FastPowIsPow(2, 63);
    assert FastPow(2, 63) == 0x8000_0000_0000_0000;
  }

  lemma PowZero(b: nat)
    ensures Pow(b, 0) == 1
  {
  }

  /** The rounded digits start with a non-zero digit. */
  lemma LeadingDigit(m: nat, e: int, radix: nat, P: nat, mant: nat, E: int, mode: Mode)
    requires mode != Truncate && FinitePair(m, e) && 2 <= radix <= 36 && P >= 1
    requires RoundedTo(Double(m, e), radix, FirstExponent(e, radix), P, mant, E, mode)
    ensures Pow(radix, P - 1) <= mant
  {
    hide Pow, RPow, FirstExponent, RoundedAt, FinitePair, Double;
    FirstMantissa(m, e, radix, P, mode);
    if E != FirstExponent(e, radix) {
      SecondMantissa(m, e, radix, P, mode);
    }
  }

  /** Trailing zero digits are dropped; the number stays the same, and remains the correct rounding of x to
      the digits that are left. */
  method StripZeros(mant0: nat, radix: nat, E: int, P0: nat, ghost x: real, ghost E0: int) returns (mant: nat, P: nat)
    requires 2 <= radix && P0 >= 1 && Pow(radix, P0 - 1) <= mant0 < Pow(radix, P0)
    requires RoundedTo(x, radix, E0, P0, mant0, E, NearestEven)
    ensures 1 <= P <= P0 && Pow(radix, P - 1) <= mant < Pow(radix, P) && mant % radix != 0
    ensures DigitValue(mant, radix, E, P) == DigitValue(mant0, radix, E, P0)
    ensures RoundedTo(x, radix, E0, P, mant, E, NearestEven)
  {
    hide Pow, DigitValue, RoundedTo;
    mant, P := mant0, P0;
    while mant % radix == 0
      invariant 1 <= P <= P0 && Pow(radix, P - 1) <= mant < Pow(radix, P)
      invariant DigitValue(mant, radix, E, P) == DigitValue(mant0, radix, E, P0)
      invariant RoundedTo(x, radix, E0, P, mant, E, NearestEven)
      decreases mant
    {
      OneZeroLess(mant, radix, E, P);
      OneDigitLess(x, radix, E0, P, mant, E);
      mant := mant / radix;
      P := P - 1;
    }
  }

  lemma OneZeroLess(mant: nat, radix: nat, E: int, P: nat)
    requires radix >= 2 && P >= 1 && Pow(radix, P - 1) <= mant < Pow(radix, P) && mant % radix == 0
    ensures P >= 2 && mant / radix < mant && Pow(radix, P - 2) <= mant / radix < Pow(radix, P - 1)
    ensures DigitValue(mant / radix, radix, E, P - 1) == DigitValue(mant, radix, E, P)
  {
    hide Pow, Scale;
    var q := mant / radix;
    assert mant == q * radix;
    MulGe(q, 2, radix);
    PowPred(radix, P);
    DivLess(mant, radix, Pow(radix, P - 1));
    PowOne(radix);
    PowZero(radix);
    if P >= 2 {
      PowPred(radix, P - 1);
      QuotientAtLeast(mant, radix, Pow(radix, P - 2));
    }
    ScaleAdd(q as real, radix, 1, E - P);
    ScaleNat(q, radix, 1);
  }

  /** When the last digit is zero, the others are the correct rounding to one digit less: what was rounded off
      is at most a quarter of the new last place. */
  lemma OneDigitLess(x: real, radix: nat, E0: int, P: nat, mant: nat, E: int)
    requires radix >= 2 && P >= 2 && mant % radix == 0 && mant / radix < Pow(radix, P - 1)
    requires RoundedTo(x, radix, E0, P, mant, E, NearestEven)
    ensures RoundedTo(x, radix, E0, P - 1, mant / radix, E, NearestEven)
  {
    hide Pow, RoundedAt;
    ZeroDropped(x, radix, P - E, mant / radix);
    if E != E0 {
      StillTooLarge(x, radix, P - E0, P);
    }
  }

  lemma ZeroDropped(x: real, radix: nat, k: int, q: nat)
    requires radix >= 2 && RoundedAt(x, radix, k, NearestEven) == q * radix
    ensures RoundedAt(x, radix, k - 1, NearestEven) == q
  {
    hide Round, Scale;
    var s, s' := Scale(x, radix, k), Scale(x, radix, k - 1);
    RoundWithinHalf(s);
    ScaleDown(x, radix, k);
    DividedHalf(s' - q as real, s - (q * radix) as real, s', radix as real, q as real);
    RoundNear(s', q, NearestEven);
  }

  lemma StillTooLarge(x: real, radix: nat, k: int, P: nat)
    requires radix >= 2 && P >= 1 && RoundedAt(x, radix, k, NearestEven) >= Pow(radix, P)
    ensures RoundedAt(x, radix, k - 1, NearestEven) >= Pow(radix, P - 1)
  {
    hide Round, Scale, Pow;
    var s, s', q := Scale(x, radix, k), Scale(x, radix, k - 1), Pow(radix, P - 1);
    PowPred(radix, P);
    RoundedDown(s, Pow(radix, P), NearestEven);
    ScaleDown(x, radix, k);
    DividedHalf(s' - q as real, s - (q * radix) as real, s', radix as real, q as real);
    RoundNear(s', q, NearestEven);
  }

  lemma DividedHalf(d: real, c: real, s': real, r: real, q: real)
    requires r >= 2.0 && d == s' - q && c == s' * r - q * r
    ensures c >= -0.5 ==> d >= -0.25
    ensures c <= 0.5 ==> d <= 0.25
  {
    assert c == d * r;
    assert d >= 0.0 ==> d * r >= d * 2.0;
    assert d <= 0.0 ==> d * r <= d * 2.0;
  }

  /** The digits (mant, E, P) read back as (m, e). */
  ghost predicate ReadsBack(m: nat, e: int, radix: nat, mant: nat, E: int, P: int)
    requires radix > 0
  {
    Nearest(DigitValue(mant, radix, E, P), Pack(m, e))
  }

  /** Some correct rounding of (m, e) to P digits does not read back. */
  ghost predicate FailsAt(m: nat, e: int, radix: nat, P: nat)
    requires 2 <= radix <= 36
  {
    exists mant: nat, E: int ::
      RoundedTo(Double(m, e), radix, FirstExponent(e, radix), P, mant, E, NearestEven) && !ReadsBack(m, e, radix, mant, E, P)
  }

  /** A normalised pair is determined by its pattern. */
  lemma PackInjective(m: nat, e: int, m1: nat, e1: int)
    requires FinitePair(m, e) && Normalised(m1, e1) && Pack(m, e) == Pack(m1, e1)
    ensures m == m1 && e == e1
  {
    hide Pow, Pack, GridMantissa;
    PackExact(m, e);
    PackRange(m, e);
    PackSpecial(m1, e1);
    if m1 > 0 && e1 <= 1024 {
      PackExact(m1, e1);
      PackRange(m1, e1);
      if GridExponent(e) == GridExponent(e1) {
        if GridExponent(e) == 0 {
          SubnormalInjective(m, e, m1, e1);
        }
      }
    }
  }

  lemma PackSpecial(m: nat, e: int)
    requires Normalised(m, e)
    ensures m == 0 ==> Pack(m, e) == 0
    ensures m > 0 && e > 1024 ==> Pack(m, e) == INFINITY
  {
  }

  /** The mantissa on the grid is positive, and has 53 bits above the finest grid. */
  lemma PackRange(m: nat, e: int)
    requires FinitePair(m, e)
    ensures GridMantissa(m, e) > 0
    ensures GridExponent(e) > 0 ==> GridMantissa(m, e) >= P52
    ensures e <= -1021 ==> GridMantissa(m, e) * Pow(2, -e - 1021) == m
  {
    hide Pow;
    if e < -1021 {
      ExactQuotient(m, Pow(2, -e - 1021));
    } else if e == -1021 {
      PowTwo(0);
    }
  }

  lemma SubnormalInjective(m: nat, e: int, m1: nat, e1: int)
    requires FinitePair(m, e) && FinitePair(m1, e1) && e <= -1021 && e1 <= -1021
    requires GridMantissa(m, e) == GridMantissa(m1, e1)
    ensures m == m1 && e == e1
  {
    hide Pow, GridMantissa;
    PackRange(m, e);
    PackRange(m1, e1);
    if e > e1 {
      DoubledFactor(GridMantissa(m, e), -e - 1021, -e1 - 1021);
    } else if e < e1 {
      DoubledFactor(GridMantissa(m, e), -e1 - 1021, -e - 1021);
    }
  }

  // ----- the search -----

  lemma MaxDigitsSmall(radix: nat)
    requires 2 <= radix <= 36
    ensures 1 <= DtoaMaxDigits(radix) <= 54
  {
  }

  lemma RootOfBound(p: nat)
    requires p * p <= Pow(2, 125)
    ensures 2 * p < DBASE
  {
    hide Pow;
    FastPowIsPow(2, 125);
    var top := 0x8000_0000_0000_0000;
    assert FastPow(2, 125) == top * top / 2;
    if p >= top {
      MulMono(top, p, top, p);
    }
  }

  /** Every mantissa the search meets fits a 64-bit word, with a factor of two to spare. */
  lemma ParseableDigits(radix: nat)
    requires 2 <= radix <= 36
    ensures 1 <= DtoaMaxDigits(radix) <= 54 && 2 * Pow(radix, DtoaMaxDigits(radix)) < DBASE
  {
    hide Pow, DtoaMaxDigits;
    MaxDigitsSmall(radix);
    DigitTables(radix);
    var d := DtoaMaxDigits(radix);
    PowAdd(radix, d, d);
    RootOfBound(Pow(radix, d));
  }

  /** One comparison of the search: whether the digits convert back to (m, e). */
  method ConvertsBack(tmp: Mpb, m: nat, e: int, radix: nat, mant: nat, E: int, P: nat) returns (same: bool)
    requires FinitePair(m, e) && 2 <= radix <= 36 && P >= 1 && tmp.tab.Length == DBIGNUM_LEN_MAX
    requires 0 < mant < Pow(radix, P) && 2 * Pow(radix, P) < DBASE
    requires FirstExponent(e, radix) <= E <= FirstExponent(e, radix) + 1
    modifies tmp`len, tmp.tab
    ensures same <==> ReadsBack(m, e, radix, mant, E, P)
  {
    hide Pow, RPow, Scale, FirstExponent, Radix1, Ctz32, OddPart, FinitePair, Normalised, Double, MulPowRoom, Nearest, Pack;
    ExponentOfPair(m, e);
    RadixParts(radix);
    FitsHalf(radix, P);
    BackRoom(mant, e, radix, P, E);
    tmp.SetU64(mant);
    var m1, e1 := MulPowRoundToD(tmp, Radix1(radix), Ctz32(radix), E - P, radix);
    same := m1 == m && e1 == e;
    if ReadsBack(m, e, radix, mant, E, P) {
      NearestUnique(DigitValue(mant, radix, E, P), Pack(m, e), Pack(m1, e1));
      PackInjective(m, e, m1, e1);
    }
  }

  /** A precision no larger than the maximal one fits a word too. */
  lemma FewerDigits(radix: nat, P: nat)
    requires 2 <= radix <= 36 && P <= DtoaMaxDigits(radix)
    ensures 2 * Pow(radix, P) < DBASE && P <= 54
  {
    hide Pow, DtoaMaxDigits;
    ParseableDigits(radix);
    PowMono(radix, P, DtoaMaxDigits(radix));
  }

  /** What the search promises about the digits it keeps. */
  ghost predicate Found(m: nat, e: int, radix: nat, mant: nat, E: int, P: nat)
    requires 2 <= radix <= 36
  {
    && 1 <= P <= DtoaMaxDigits(radix)
    && Pow(radix, P - 1) <= mant < Pow(radix, P) && mant % radix != 0
    && RoundedTo(Double(m, e), radix, FirstExponent(e, radix), P, mant, E, NearestEven)
    && ReadsBack(m, e, radix, mant, E, P)
  }

  /** The digits of the free format. They are (m, e) correctly rounded to as many digits, without a trailing
      zero; they read back as exactly (m, e), and either there is a
      single digit or the correct rounding to one digit less does not read back. */
  method FindDigits(tmp: Mpb, m: nat, e: int, radix: nat) returns (mantFound: nat, EFound: int, PFound: nat)
    requires FinitePair(m, e) && 2 <= radix <= 36 && tmp.tab.Length == DBIGNUM_LEN_MAX
    modifies tmp`len, tmp.tab
    ensures Found(m, e, radix, mantFound, EFound, PFound)
    ensures PFound == 1 || FailsAt(m, e, radix, PFound - 1)
    ensures tmp.Valid() && tmp.Normal() && tmp.Value() == mantFound
  {
    hide Pow, RPow, FirstExponent, DtoaMaxDigits, FinitePair, Double, DigitValue, Nearest, Pack, RoundedTo;
    var E0 := FirstExponent(e, radix);
    mantFound, EFound, PFound := 0, 0, 0;
    var P := DtoaMaxDigits(radix);
    ParseableDigits(radix);
    while true
      invariant 1 <= P <= DtoaMaxDigits(radix)
      invariant PFound == 0 ==> P == DtoaMaxDigits(radix)
      invariant PFound != 0 ==> PFound == P + 1 && Found(m, e, radix, mantFound, EFound, PFound)
      decreases P
    {
      FewerDigits(radix, P);
      var mant0, E := TryDigits(tmp, m, e, radix, P, E0);
      LeadingDigit(m, e, radix, P, mant0, E, NearestEven);
      RangeOfRounding(m, e, radix, P, mant0, E, NearestEven);
      var mant, P' := StripZeros(mant0, radix, E, P, Double(m, e), E0);
      if PFound == 0 {
        MaxDigitsReadBack(m, e, radix, mant0, E, DigitValue(mant0, radix, E, P));
      } else {
        FewerDigits(radix, P');
        PowPositive(radix, P');
        var same := ConvertsBack(tmp, m, e, radix, mant, E, P');
        if !same {
          assert !ReadsBack(m, e, radix, mant0, E, P);
          break;
        }
      }
      PFound, EFound, mantFound, P := P', E, mant, P';
      if P == 1 {
        break;
      }
      P := P - 1;
    }
    FewerDigits(radix, PFound);
    tmp.SetU64(mantFound);
  }

  lemma RangeOfRounding(m: nat, e: int, radix: nat, P: nat, mant: nat, E: int, mode: Mode)
    requires 2 <= radix <= 36
    requires RoundedTo(Double(m, e), radix, FirstExponent(e, radix), P, mant, E, mode)
    ensures FirstExponent(e, radix) <= E <= FirstExponent(e, radix) + 1 && mant < Pow(radix, P)
  {
  }
}
