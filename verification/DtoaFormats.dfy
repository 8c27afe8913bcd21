/** The other formats of js_dtoa: a fixed number of significant digits, and a fixed number of
    digits behind the dot; and the decoding of the float64 they start from. */
module DtoaFormats {
  import opened Arith
  import opened Limbs
  import opened Rounding
  import opened Bignum
  import opened RadixLog
  import opened Powers
  import opened Scaling
  import opened Float64
  import opened ToFloat64
  import opened ReadBack
  import opened FreeDigits
  import opened Capacity
  import opened DtoaFree
  import opened Digits
  import opened IntText

  const MANT_LEN_MAX: nat := 18
  const MAX_DIGITS: nat := 101

  // ----- decoding -----

  /** (m, e) with 2^52 <= m < 2^53 and value m * 2^(e - 53); subnormals are normalised. */
  function Decode(a: nat): (r: (nat, int))
    requires 0 < a < INFINITY
  {
    var f, m := a / P52, a % P52;
    if f == 0 then
      TwoTo53();
      var l := 52 - TopBitFrom(m, 51);
      (m * Pow(2, l), 0 - (l - 1) - 1022)
    else (m + P52, f - 1022)
  }

  /** Decoding is inverse to packing. */
  lemma DecodeIsInverse(a: nat)
    requires 0 < a < INFINITY
    ensures var (m, e) := Decode(a); FinitePair(m, e) && Pack(m, e) == a
  {
    var f, m := a / P52, a % P52;
    TwoTo53();
    if f == 0 {
      var t := TopBitFrom(m, 51);
      DecodeSubnormal(m, t);
    } else {
      assert (m + P52) % P52 == m;
    }
  }

  lemma DecodeSubnormal(m: nat, t: nat)
    requires t <= 51 && Pow(2, t) <= m < Pow(2, t + 1)
    ensures var (m', e) := (m * Pow(2, 52 - t), 0 - (52 - t - 1) - 1022);
            FinitePair(m', e) && Pack(m', e) == m
  {
    hide Pow;
    var l := 52 - t;
    TwoTo53();
    PowAdd(2, t, l);
    PowAdd(2, t + 1, l);
    MulMono(Pow(2, t), m, Pow(2, l), Pow(2, l));
    StrictScale(m, Pow(2, t + 1), Pow(2, l));
    ExactMultiple(m * Pow(2, l), Pow(2, l), m);
  }

  // ----- buffer sizes -----

  /** No power of a radix with up to 101 digits has more than 523 bits. */
  lemma DigitsFit(radix: nat, P: nat)
    requires 1 <= radix <= 36 && P <= MAX_DIGITS
    ensures Pow(radix, P) < Pow(2, 523)
  {
    LargestPower();
    hide Pow, FastPow;
    FastPowIsPow(36, MAX_DIGITS);
    FastPowIsPow(2, 523);
    PowBaseMono(radix, 36, P);
    PowMono(36, P, MAX_DIGITS);
  }

  lemma LargestPower()
    ensures FastPow(36, MAX_DIGITS) < FastPow(2, 523)
  {
    assert FastPow(36, 101) < FastPow(2, 523);
  }

  lemma MantissaBuffer()
    ensures Pow(BASE, MANT_LEN_MAX - 1) == Pow(2, 544)
    ensures Pow(2, 523) < Pow(BASE, MANT_LEN_MAX - 1) && Pow(2, 523) < Pow(BASE, MANT_LEN_MAX)
  {
    hide Pow;
    BaseIsPow2();
    PowOfPow(2, 32, MANT_LEN_MAX - 1);
    PowTwo(523);
    PowMono(2, 524, 544);
    PowMono(BASE, MANT_LEN_MAX - 1, MANT_LEN_MAX);
  }

  // ----- a fixed number of significant digits -----

  /** mant_max = radix^P */
  method PowerOfRadix(a: Mpb, radix: nat, P: nat)
    requires 2 <= radix <= 36 && 1 <= P <= MAX_DIGITS && a.tab.Length == MANT_LEN_MAX
    modifies a`len, a.tab
    ensures a.Valid() && a.Normal() && a.Value() == Pow(radix, P)
  {
    hide Pow, OddPart, Radix1, Ctz32, RoundQuotient, Scaled, Sticky;
    RadixParts(radix);
    var radix1, radixShift := Radix1(radix), Ctz32(radix);
    DigitsFit(radix, P);
    DigitsFit(radix1, P);
    MantissaBuffer();
    PowParts(radix, radix1, radixShift, P);
    a.len := 1;
    a.tab[0] := 1;
    OneLimb(a.tab[..1]);
    var powShift := MulPow(a, radix1, radixShift, P, false, 0);
    assert a.Value() == Pow(radix1, P);
    assert powShift == -(P * radixShift) by {
      Product3(P, radixShift);
    }
    ghost var v := a.Value();
    assert -powShift == P * radixShift;
    a.ShrRound(powShift, Truncate);
    MulGe(P, 0, radixShift);
    TruncateByOne(v);
  }

  lemma Product3(P: int, s: int)
    ensures -P * s == -(P * s)
  {
  }

  lemma TruncateByOne(v: nat)
    ensures Pow(2, 0) == 1 && RoundQuotient(v, true, Pow(2, 0), Truncate) == v
  {
  }

  lemma PowParts(radix: nat, radix1: nat, s: nat, P: nat)
    requires radix == radix1 * Pow(2, s)
    ensures Pow(radix, P) == Pow(radix1, P) * Pow(2, P * s)
    ensures radix1 == 1 ==> Pow(radix1, P) == 1
  {
    hide Pow;
    PowOfProduct(radix1, Pow(2, s), P);
    PowOfPow(2, s, P);
    assert s * P == P * s;
    PowOfOne(P);
  }

  /** The digits of the fixed format: d rounded to P digits, ties away from zero; the exponent
      is raised at most once. */
  method FixedDigits(tmp: Mpb, mantMax: Mpb, m: nat, e: int, radix: nat, P: nat) returns (E: int)
    requires FinitePair(m, e) && 2 <= radix <= 36 && 1 <= P <= MAX_DIGITS
    requires tmp != mantMax && tmp.tab != mantMax.tab
    requires tmp.tab.Length == DBIGNUM_LEN_MAX && mantMax.tab.Length == MANT_LEN_MAX
    modifies tmp`len, tmp.tab, mantMax`len, mantMax.tab
    ensures tmp.Valid() && tmp.Normal()
    ensures RoundedTo(Double(m, e), radix, FirstExponent(e, radix), P, tmp.Value(), E, NearestAway)
  {
    hide Pow, RPow, Scale, Round, Number, FirstExponent, Radix1, Ctz32, OddPart, FinitePair, Double, RoundRoom;
    ExponentOfPair(m, e);
    RadixParts(radix);
    DigitsFit(radix, P);
    PowerOfRadix(mantMax, radix, P);
    ghost var E0 := FirstExponent(e, radix);
    E := FirstExponent(e, radix);
    PowPositive(radix, P);
    FirstMantissa(m, e, radix, P, NearestAway);
    while true
      invariant mantMax.Valid() && mantMax.Normal() && mantMax.Value() == Pow(radix, P)
      invariant E == E0 || (E == E0 + 1 && RoundedAt(Double(m, e), radix, P - E0, NearestAway) >= Pow(radix, P))
      decreases E0 + 1 - E
    {
      if E == E0 + 1 {
        SecondMantissa(m, e, radix, P, NearestAway);
      }
      RoundingRoom(m, e, radix, P, E, 523);
      MulPowRound(tmp, m, e - 53, Radix1(radix), Ctz32(radix), P - E, NearestAway, radix);
      DoubleTimesPower(m, e, radix, P - E);
      var c := tmp.Cmp(mantMax);
      if c < 0 {
        break;
      }
      E := E + 1;
    }
  }

  // ----- a fixed number of digits behind the dot -----

  lemma FracRoom(m: nat, e: int, radix: nat, n: nat)
    requires FinitePair(m, e) && 2 <= radix <= 36 && n <= MAX_DIGITS
    ensures OddPart(Radix1(radix)) && RoundRoom(m, DBIGNUM_LEN_MAX, e - 53, Radix1(radix), Ctz32(radix), n)
  {
    hide Pow, RPow, Scale, Number, Radix1, Ctz32, OddPart, FinitePair, Double;
    ExponentOfPair(m, e);
    RadixParts(radix);
    BufferSize();
    TwoTo53();
    var radix1 := Radix1(radix);
    DigitsFit(radix, n);
    DigitsFit(radix1, n);
    ProductOfPowers(m, Pow(radix1, n), 53, 523, 1664);
    if e - 53 + n * Ctz32(radix) > 0 {
      DoubleTimesPower(m, e, radix, n);
      DoubleBounds(m, e);
      ProductReal(Double(m, e), radix, n, e);
      ExactProductBound(m, e - 53, radix, n, 1632);
    }
  }

  lemma ProductReal(x: real, radix: nat, n: nat, e: int)
    requires radix > 0 && 0.0 <= x < RPow(2, e) && e <= 1024 && Pow(radix, n) < Pow(2, 523)
    ensures Scale(x, radix, n) < RPow(2, 1632)
  {
    hide Pow, RPow;
    PositivePower(radix, n);
    PositivePower(2, 523);
    RPowAdd(2, e, 523);
    RPowMono(2, e + 523, 1632);
    ScaleUnit(x, radix, n);
    MulGeReal(x, RPow(radix, n), RPow(2, 523));
    assert RPow(radix, n) <= RPow(2, 523);
    assert x * RPow(radix, n) <= x * RPow(2, 523);
    MulCompare(RPow(2, 523), x, RPow(2, e));
    assert x * RPow(2, 523) < RPow(2, e + 523);
  }

  /** The integer printed by the fraction format: d * radix^n rounded, ties away from zero. */
  ghost function FracValue(m: nat, e: int, radix: nat, n: nat): int
    requires radix > 0
  {
    RoundedAt(Double(m, e), radix, n, NearestAway)
  }

  /** d is less than twice radix^E for the first exponent E, and less than it in base two. */
  lemma TopFactor(m: nat, e: int, radix: nat)
    requires FinitePair(m, e) && 2 <= radix <= 36
    ensures Double(m, e) <= (if radix == 2 then 1.0 else 2.0) * RPow(radix, FirstExponent(e, radix))
  {
    hide RPow, Double, FirstExponent;
    ExponentOfPair(m, e);
    ExponentBracket(e, radix);
    DoubleBounds(m, e);
    RPowStep(2, e - 1);
    BinaryExponent(e);
  }

  /** The integer part has at most one digit more than the first exponent says, and not fewer
      than it says. */
  lemma FracSize(m: nat, e: int, radix: nat, n: nat)
    requires FinitePair(m, e) && 2 <= radix <= 36
    ensures var E := FirstExponent(e, radix); var v := FracValue(m, e, radix, n);
            && 0 <= v < Pow(radix, (if E >= 1 then E else 0) + 1 + n)
            && (E >= 1 ==> Pow(radix, E - 1 + n) <= v)
  {
    hide RPow, Pow, Scale, FirstExponent, Round, Double;
    var E, x := FirstExponent(e, radix), Double(m, e);
    var s := Scale(x, radix, n);
    var k := if E >= 1 then E else 0;
    var c := if radix == 2 then 1 else 2;
    TopFactor(m, e, radix);
    DoubleBounds(m, e);
    ScaleMono(x, c as real * RPow(radix, E), radix, n);
    ScaleUnit(c as real * RPow(radix, E), radix, n);
    RPowAdd(radix, E, n);
    RPowMono(radix, E + n, k + n);
    PositivePower(radix, k + n);
    RoundMono(s, (c * Pow(radix, k + n)) as real, NearestAway);
    RoundInt(c * Pow(radix, k + n), NearestAway);
    RoundMono(0.0, s, NearestAway);
    RoundInt(0, NearestAway);
    PowPred(radix, k + 1 + n);
    PowPositive(radix, k + n);
    StrictScale(c, radix, Pow(radix, k + n));
    if E >= 1 {
      FracLow(m, e, radix, n);
    }
  }

  lemma FracLow(m: nat, e: int, radix: nat, n: nat)
    requires FinitePair(m, e) && 2 <= radix <= 36 && FirstExponent(e, radix) >= 1
    ensures Pow(radix, FirstExponent(e, radix) - 1 + n) <= FracValue(m, e, radix, n)
  {
    hide RPow, Pow, Scale, FirstExponent, Round, Double;
    var E, x := FirstExponent(e, radix), Double(m, e);
    ExponentOfPair(m, e);
    ExponentBracket(e, radix);
    DoubleBounds(m, e);
    ScaleMono(RPow(radix, E - 1), x, radix, n);
    ScaleUnit(RPow(radix, E - 1), radix, n);
    RPowAdd(radix, E - 1, n);
    PositivePower(radix, E - 1 + n);
    RoundMono(Pow(radix, E - 1 + n) as real, Scale(x, radix, n), NearestAway);
    RoundInt(Pow(radix, E - 1 + n), NearestAway);
  }

  /** The text of v / radix^n: an integer part without redundant zeros, and n digits. */
  function FracText(v: nat, radix: nat, n: nat): string
    requires 2 <= radix <= 36
  {
    PowPositive(radix, n);
    Canonical(v / Pow(radix, n), radix) + (if n == 0 then "" else "." + DigitString(v, radix, n))
  }

  lemma SplitText(v: nat, radix: nat, d: nat, n: nat)
    requires 2 <= radix <= 36 && d >= 1
    ensures Pow(radix, n) > 0
    ensures WithDot(DigitString(v, radix, d + n), d) ==
            DigitString(v / Pow(radix, n), radix, d) + (if n == 0 then "" else "." + DigitString(v, radix, n))
  {
    hide Pow, DigitString;
    DigitStringSplit(v, radix, d, n);
    NoDigits(v, radix);
    var s := DigitString(v, radix, d + n);
    assert s[..d] == DigitString(v / Pow(radix, n), radix, d);
  }

  lemma {:induction false} TopDigitZero(v: nat, radix: nat, d: nat)
    requires 2 <= radix <= 36 && d >= 1 && v < Pow(radix, d)
    ensures DigitString(v, radix, d)[0] == '0' <==> v < Pow(radix, d - 1)
    ensures v < Pow(radix, d - 1) ==> DigitString(v, radix, d)[1..] == DigitString(v, radix, d - 1)
    ensures forall i :: 0 <= i < d ==> DigitString(v, radix, d)[i] != '.'
  {
    hide Pow, DigitString;
    PowPositive(radix, d - 1);
    DigitStringSplit(v, radix, 1, d - 1);
    PowPred(radix, d);
    DivLess(v, Pow(radix, d - 1), radix);
    FirstChar(v / Pow(radix, d - 1), radix);
    SmallQuotient(v, Pow(radix, d - 1));
    DigitStringDigits(v, radix, d);
    var s := DigitString(v, radix, d);
    assert forall i :: 0 <= i < d ==> ToDigit(s[i]) < radix;
  }

  lemma FirstChar(q: nat, radix: nat)
    requires 2 <= radix <= 36 && q < radix
    ensures DigitString(q, radix, 1) == [DigitChar(q)]
    ensures DigitChar(q) == '0' <==> q == 0
  {
    DivUnique(q, radix, 0, q);
    NoDigits(0, radix);
    DigitCharReads(q);
  }

  /** Dropping one redundant zero leaves the text without redundant zeros. */
  lemma DropZero(v: nat, radix: nat, d: nat, n: nat, s: string)
    requires 2 <= radix <= 36 && d >= 1 && s == WithDot(DigitString(v, radix, d + n), d)
    requires v < Pow(radix, d + n) && (d >= 2 ==> Pow(radix, d - 2 + n) <= v)
    ensures |s| >= 1
    ensures (if s[0] == '0' && |s| >= 2 && s[1] != '.' then s[1..] else s) == FracText(v, radix, n)
  {
    hide Pow, DigitString, Canonical, WithDot;
    PowPositive(radix, n);
    var q := v / Pow(radix, n);
    SplitText(v, radix, d, n);
    PowAdd(radix, n, d);
    DivLess(v, Pow(radix, n), Pow(radix, d));
    TopDigitZero(q, radix, d);
    if d >= 2 {
      PowAdd(radix, n, d - 2);
      PowAdd(radix, n, d - 1);
      QuotientLow(v, Pow(radix, n), Pow(radix, d - 2));
      if q < Pow(radix, d - 1) {
        CanonicalLength(q, radix, d - 1);
      } else {
        CanonicalLength(q, radix, d);
      }
    } else {
      CanonicalLength(q, radix, 1);
    }
  }

  function Max(a: int, b: int): int {
    if a > b then a else b
  }

  /** The fraction format: exactly round(d * radix^n) / radix^n, with n digits behind the dot and
      no redundant leading zero. */
  method FracDigits(tmp: Mpb, m: nat, e: int, radix: nat, n: nat) returns (s: string)
    requires FinitePair(m, e) && 2 <= radix <= 36 && n <= MAX_DIGITS && tmp.tab.Length == DBIGNUM_LEN_MAX
    modifies tmp`len, tmp.tab
    ensures FracValue(m, e, radix, n) >= 0
    ensures s == FracText(FracValue(m, e, radix, n), radix, n)
  {
    hide Pow, RPow, Scale, Round, Number, FirstExponent, Radix1, Ctz32, OddPart, FinitePair, Double, RoundRoom;
    hide DigitString, WithDot, FracText;
    ExponentOfPair(m, e);
    RadixParts(radix);
    FracRoom(m, e, radix, n);
    MulPowRound(tmp, m, e - 53, Radix1(radix), Ctz32(radix), n, NearestAway, radix);
    DoubleTimesPower(m, e, radix, n);
    var E := FirstExponent(e, radix);
    var d := Max(E + 1, 1);
    FracSize(m, e, radix, n);
    s := OutputDigits(tmp, radix, d + n, d);
    DropZero(FracValue(m, e, radix, n), radix, d, n, s);
    if s[0] == '0' && |s| >= 2 && s[1] != '.' {
      s := s[1..];
    }
  }
}
