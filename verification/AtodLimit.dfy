/** How far js_atod's correct rounding goes: exactly, unless a digit beyond the limit of the
    radix is dropped, and then not always. */
module AtodLimit {
  import opened Arith
  import opened Rounding
  import opened RadixLog
  import opened Powers
  import opened Float64
  import opened Digits
  import opened Numeral
  import opened AtodDigits
  import opened AtodValue
  import opened Atod
  import opened Halfway
  import opened RoundTrip

  /** js_atod rounds the very number that is written exactly when every digit that it drops is zero; in particular in
      a power-of-two radix, and for no more significant digits than the limit. */
  lemma AllDigitsCount(radix: nat, digits: seq<nat>)
    requires 2 <= radix <= 36
    ensures Significand(radix, digits) <= DigitsValue(digits, radix)
    ensures Significand(radix, digits) == DigitsValue(digits, radix) <==>
            forall i :: KeptDigits(radix, digits) <= i < |digits| ==> digits[i] == 0
    ensures RadixBits(radix) != 0 || |digits| - LeadingZeros(digits) <= AtodMaxDigits(radix) ==>
            Significand(radix, digits) == DigitsValue(digits, radix)
  {
    hide Pow, DigitsValue, AtodMaxDigits, RadixBits, LeadingZeros;
    var k := KeptDigits(radix, digits);
    var tail := digits[k..];
    assert digits == digits[..k] + tail;
    DigitsAppend(digits[..k], tail, radix);
    assert forall i :: 0 <= i < |tail| ==> tail[i] == digits[k + i];
    if AnyNonZero(tail) {
      NonZeroDigits(tail, radix);
      var i :| 0 <= i < |tail| && tail[i] != 0;
      assert digits[k + i] != 0;
    } else {
      ZeroDigits(tail, radix);
    }
  }

  /** The number a numeral writes, and the one js_atod rounds. */
  ghost function Written(n: Numeral): real
    requires n.Number? && n.radix > 0
  {
    Magnitude(DigitsValue(n.digits, n.radix), n.radix, n.fraction, n.exponent, n.binary)
  }

  ghost function Rounded(n: Numeral): real
    requires n.Number? && n.radix > 0
  {
    Magnitude(Significand(n.radix, n.digits), n.radix, n.fraction, n.exponent, n.binary)
  }

  lemma MagnitudeMono(v: nat, w: nat, radix: nat, fraction: nat, exponent: int, binary: bool)
    requires radix > 0 && v <= w
    ensures Magnitude(v, radix, fraction, exponent, binary) <= Magnitude(w, radix, fraction, exponent, binary)
  {
    hide Scale;
    var f: int := fraction;
    if binary {
      ScaleMono(v as real, w as real, radix, -f);
      ScaleMono(Scale(v as real, radix, -f), Scale(w as real, radix, -f), 2, exponent);
    } else {
      ScaleMono(v as real, w as real, radix, exponent - fraction);
    }
  }

  /** Exactly when js_atod returns the float64 nearest to the number that is written: when no halfway point of
      neighbouring float64 separates it from the number without the dropped digits. */
  lemma NearestToWritten(n: Numeral, f: Float)
    requires n.Number? && 2 <= n.radix <= 36 && Converts(n, f)
    ensures Nearest(Written(n), f.bits) <==> !exists b: nat :: Separates(b, InUnits(Rounded(n)), InUnits(Written(n)))
    ensures (forall i :: KeptDigits(n.radix, n.digits) <= i < |n.digits| ==> n.digits[i] == 0) ==> Nearest(Written(n), f.bits)
  {
    hide Scale, Nearest, Separates, Magnitude, Significand, KeptDigits;
    AllDigitsCount(n.radix, n.digits);
    MagnitudeMono(Significand(n.radix, n.digits), DigitsValue(n.digits, n.radix), n.radix, n.fraction, n.exponent, n.binary);
    ScaleMono(Rounded(n), Written(n), 2, 1074);
    NearestKept(Rounded(n), Written(n), f.bits);
  }

  /** 2^53 + 1, halfway between two float64. */
  const HALFWAY: nat := 9007199254740993

  /** 2^53 + 1 + 10^-23, with 39 digits. */
  const WHOLE: string := "9007199254740993"
  const FRACTION: string := "00000000000000000000001"
  const LONG_TEXT: string := "9007199254740993.00000000000000000000001"

  lemma TenTo23()
    ensures Pow(10, 23) == 100_000_000_000_000_000_000_000
  {
    FastPowIsPow(10, 23);
    assert FastPow(10, 23) == 100_000_000_000_000_000_000_000;
  }

  lemma FourDigits(a: nat, b: nat, c: nat, d: nat)
    ensures DigitsValue([a, b, c, d], 10) == 1000 * a + 100 * b + 10 * c + d
  {
    SnocDigit([], a, 10);
    SnocDigit([a], b, 10);
    SnocDigit([a, b], c, 10);
    SnocDigit([a, b, c], d, 10);
    assert [] + [a] == [a] && [a] + [b] == [a, b] && [a, b] + [c] == [a, b, c] && [a, b, c] + [d] == [a, b, c, d];
  }

  lemma WholeValue()
    ensures DigitsValue(DigitsOf(WHOLE), 10) == HALFWAY && DigitsOf(WHOLE)[0] == 9
  {
    hide DigitsValue, Pow;
    assert DigitsOf(WHOLE) == [9, 0, 0, 7] + ([1, 9, 9, 2] + ([5, 4, 7, 4] + [0, 9, 9, 3]));
    FourDigits(9, 0, 0, 7);
    FourDigits(1, 9, 9, 2);
    FourDigits(5, 4, 7, 4);
    FourDigits(0, 9, 9, 3);
    DigitsAppend([5, 4, 7, 4], [0, 9, 9, 3], 10);
    DigitsAppend([1, 9, 9, 2], [5, 4, 7, 4] + [0, 9, 9, 3], 10);
    DigitsAppend([9, 0, 0, 7], [1, 9, 9, 2] + ([5, 4, 7, 4] + [0, 9, 9, 3]), 10);
    FastPowIsPow(10, 4);
    FastPowIsPow(10, 8);
    FastPowIsPow(10, 12);
    assert FastPow(10, 4) == 10000 && FastPow(10, 8) == 1_0000_0000 && FastPow(10, 12) == 1_0000_0000_0000;
  }

  /** The value of its digits, with and without the last one. */
  lemma LongNumberValues()
    ensures DigitsValue(DigitsOf(WHOLE + FRACTION), 10) == HALFWAY * Pow(10, 23) + 1
    ensures Significand(10, DigitsOf(WHOLE + FRACTION)) == HALFWAY * Pow(10, 23)
  {
    hide Pow, DigitsValue, LeadingZeros;
    var ds, zeros := DigitsOf(WHOLE + FRACTION), Zeros(22);
    WholeValue();
    assert DigitsOf(FRACTION) == zeros + [1];
    DigitsOfAppend(WHOLE, FRACTION);
    ZeroDigits(zeros, 10);
    SnocDigit(zeros, 1, 10);
    DigitsAppend(DigitsOf(WHOLE), zeros + [1], 10);
    NoLeadingZeros(ds);
    assert ds[..38] == DigitsOf(WHOLE) + zeros;
    DigitsAppend(DigitsOf(WHOLE), zeros, 10);
    PowPred(10, 23);
    PowOne(10);
    Regroup22(Pow(10, 22));
  }

  lemma Regroup22(p: nat)
    ensures (HALFWAY * p) * 10 == HALFWAY * (10 * p)
  {
  }

  lemma NoLeadingZeros(ds: seq<nat>)
    requires |ds| > 0 && ds[0] != 0
    ensures LeadingZeros(ds) == 0
  {
  }

  /** What js_atod reads of the text. */
  lemma LongTextReads(flags: Flags)
    requires !flags.intOnly
    ensures Read(LONG_TEXT, 10, flags) == Number(false, 10, DigitsOf(WHOLE + FRACTION), 23, 0, false, 40)
  {
    hide DigitsOf, Read, DigitText, TextOf;
    LongTextParts();
    ReadText(false, 10, flags, WHOLE, FRACTION, NoSuffix);
  }

  lemma LongTextParts()
    ensures DigitText(WHOLE, 10) && DigitText(FRACTION, 10) && |WHOLE| == 16 && |FRACTION| == 23 && |LONG_TEXT| == 40
    ensures TextOf(false, 10, WHOLE, FRACTION, NoSuffix) == LONG_TEXT
  {
    hide DigitText;
    OnlyDigits(WHOLE);
    OnlyDigits(FRACTION);
    LongTextIs();
  }

  lemma OnlyDigits(t: string)
    requires forall i :: 0 <= i < |t| ==> '0' <= t[i] <= '9'
    ensures DigitText(t, 10)
  {
  }

  lemma LongTextIs()
    ensures TextOf(false, 10, WHOLE, FRACTION, NoSuffix) == LONG_TEXT
  {
    assert WHOLE + ("." + FRACTION) == LONG_TEXT;
  }

  /** A real just above 2^52, in units of the grid on which 2^53 + 1 lies half a step. */
  lemma RoundsTo(x: real, d: real, a: nat)
    requires InUnits(x) == (HALFWAY as real + d) * Pow(2, 1074) as real
    requires 0.0 <= d < 0.5 && a == if d == 0.0 then P52 else P52 + 1
    ensures Nearest(x, 1075 * P52 + a)
  {
    hide Pow, Scale, InUnits, Nearest;
    PowTwo(1074);
    var z := Scale(InUnits(x), 2, -1075);
    ScaleInverse(InUnits(x), 1075);
    HalfOf(z, HALFWAY as real + d, Pow(2, 1074) as real);
    RoundHalf(z, d, a);
    NearestByRounding(x, 1075, a);
  }

  lemma HalfOf(z: real, y: real, p: real)
    requires p > 0.0 && z * (2.0 * p) == y * p
    ensures z == 0.5 * y
  {
    assert (2.0 * z) * p == y * p;
    CancelRight(2.0 * z, y, p);
  }

  lemma RoundHalf(z: real, d: real, a: nat)
    requires z == 0.5 * (HALFWAY as real + d) && 0.0 <= d < 0.5 && a == if d == 0.0 then P52 else P52 + 1
    ensures P52 as real <= z < P53 as real && Round(z, NearestEven) == a
  {
    assert z.Floor == P52;
  }

  /** Beyond the limit, the result need not be the nearest float64: with 39 digits, 2^53 + 1 + 10^-23
      is rounded as if it were 2^53 + 1, a tie, and comes out one unit too low. */
  lemma DroppedDigitShows(flags: Flags, f: Float)
    requires !flags.intOnly && Converts(Read(LONG_TEXT, 10, flags), f)
    ensures f == Float(false, 1075 * P52 + P52)
    ensures var n := Read(LONG_TEXT, 10, flags);
            && n.Number? && n.radix == 10 && n.next == |LONG_TEXT|
            && Nearest(Written(n), 1075 * P52 + P52 + 1) && !Nearest(Written(n), f.bits)
  {
    hide Pow, Scale, Nearest, DigitsValue, DigitsOf, Significand, Read, Magnitude;
    LongTextReads(flags);
    LongNumberValues();
    TenTo23();
    Quotients(1);
    Quotients(0);
    var tiny := 1.0 / Pow(10, 23) as real;
    assert 0.0 < tiny < 0.5;
    var n := Read(LONG_TEXT, 10, flags);
    RoundsTo(Written(n), tiny, P52 + 1);
    RoundsTo(Rounded(n), 0.0, P52);
    NearestUnique(Rounded(n), 1075 * P52 + P52, f.bits);
    if Nearest(Written(n), f.bits) {
      NearestUnique(Written(n), 1075 * P52 + P52 + 1, f.bits);
    }
  }

  lemma Quotients(k: nat)
    ensures InUnits(Magnitude(HALFWAY * Pow(10, 23) + k, 10, 23, 0, false)) ==
            (HALFWAY as real + k as real / Pow(10, 23) as real) * Pow(2, 1074) as real
  {
    hide Pow;
    PowPositive(10, 23);
    QuotientOfSum(HALFWAY, k, Pow(10, 23));
  }

  lemma QuotientOfSum(h: nat, k: nat, p: nat)
    requires p > 0
    ensures (h * p + k) as real * (1.0 / p as real) == h as real + k as real / p as real
  {
    var x := 1.0 / p as real;
    assert x * p as real == 1.0;
    assert (h * p) as real == h as real * p as real;
    assert (h as real * p as real) * x == h as real * (p as real * x);
  }
}
