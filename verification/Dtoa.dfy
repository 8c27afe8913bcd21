/** js_dtoa: the text of a float64 in any radix and format. */
module Dtoa {
  import opened Arith
  import opened Limbs
  import opened Rounding
  import opened Bignum
  import opened RadixLog
  import opened Powers
  import opened Scaling
  import opened Float64
  import opened ToFloat64
  import opened ReadBack
  import opened FreeDigits
  import opened Capacity
  import opened DtoaFree
  import opened Digits
  import opened IntText
  import opened DtoaFormats

  datatype Format = Free | Fixed | Frac
  datatype ExponentMode = Auto | Enabled | Disabled

  const SIGN_BIT: nat := 0x8000_0000_0000_0000

  // ----- layout -----

  function Repeat(c: char, n: nat): (s: string)
    ensures |s| == n && forall i :: 0 <= i < n ==> s[i] == c
  {
    seq(n, i => c)
  }

  /** 'p' counts powers of two, the others powers of the radix. */
  function Marker(radix: nat): char
    requires radix > 0
  {
    if radix == 10 then 'e' else if Radix1(radix) == 1 && Ctz32(radix) <= 4 then 'p' else '@'
  }

  function Magnified(radix: nat, E: int): int
    requires radix > 0
  {
    if Marker(radix) == 'p' then E * Ctz32(radix) else E
  }

  function AbsInt(x: int): nat {
    if x < 0 then -x else x
  }

  function ExponentText(radix: nat, E: int): string
    requires radix > 0
  {
    var x := Magnified(radix, E);
    [Marker(radix)] + (if x < 0 then "-" else "+") + Canonical(AbsInt(x), 10)
  }

  /** The digits with a dot and zeros or an exponent, so that the dot stands behind digit E. */
  function Layout(digits: string, radix: nat, E: int, exponential: bool): string
    requires |digits| >= 1 && radix > 0
  {
    var P := |digits|;
    if exponential then WithDot(digits, 1) + ExponentText(radix, E - 1)
    else if E <= 0 then "0." + Repeat('0', -E) + digits
    else if E < P then WithDot(digits, E)
    else digits + Repeat('0', E - P)
  }

  /** Whether js_dtoa chooses the exponential form. */
  function UsesExponent(format: Format, mode: ExponentMode, radix: nat, n: nat, E: int): bool {
    var eMax := if format == Fixed then n else DtoaMaxDigits(radix) + 4;
    mode == Enabled || (mode == Auto && (E <= -6 || E > eMax))
  }

  /** The exponent, with marker and sign. */
  method OutputExponent(radix: nat, E0: int) returns (s: string)
    requires 2 <= radix <= 36 && -30001 <= E0 <= 30000
    ensures s == ExponentText(radix, E0)
  {
    hide Canonical;
    var E := E0;
    var radix1, radixShift := Radix1(radix), Ctz32(radix);
    if radix == 10 {
      s := "e";
    } else if radix1 == 1 && radixShift <= 4 {
      ProductSize(E, radixShift);
      E := E * radixShift;
      s := "p";
    } else {
      s := "@";
    }
    if E < 0 {
      s := s + "-";
      E := -E;
    } else {
      s := s + "+";
    }
    var t := U32ToA(E);
    s := s + t;
  }

  /** The output label of js_dtoa: digits, then layout. */
  method Output(tmp: Mpb, radix: nat, P: nat, E0: int, exponential: bool) returns (s: string)
    requires tmp.Valid() && tmp.Normal() && 2 <= radix <= 36 && P >= 1
    requires -30000 <= E0 <= 30000
    modifies tmp`len, tmp.tab
    ensures s == Layout(DigitString(old(tmp.Value()), radix, P), radix, E0, exponential)
  {
    hide DigitString, Canonical, WithDot, ExponentText;
    var E := E0;
    if exponential {
      s := OutputDigits(tmp, radix, P, 1);
      var t := OutputExponent(radix, E - 1);
      s := s + t;
    } else if E <= 0 {
      s := "0.";
      for i := 0 to -E
        invariant s == "0." + Repeat('0', i)
      {
        s := s + "0";
        assert Repeat('0', i) + "0" == Repeat('0', i + 1);
      }
      var t := OutputDigits(tmp, radix, P, P);
      AllDigitsNoDot(DigitString(old(tmp.Value()), radix, P));
      s := s + t;
    } else {
      s := OutputDigits(tmp, radix, P, if P < E then P else E);
      AllDigitsNoDot(DigitString(old(tmp.Value()), radix, P));
      ghost var head := s;
      var count := if E > P then E - P else 0;
      for i := 0 to count
        invariant s == head + Repeat('0', i)
      {
        s := s + "0";
        assert Repeat('0', i) + "0" == Repeat('0', i + 1);
      }
      if count == 0 {
        assert s == head;
      }
    }
  }

  lemma AllDigitsNoDot(t: string)
    ensures WithDot(t, |t|) == t
  {
  }

  lemma ProductSize(E: int, k: int)
    requires -30001 <= E <= 30000 && 0 <= k <= 4
    ensures -120004 <= E * k <= 120000
  {
  }

  // ----- the specification -----

  function SignText(negative: bool): string {
    if negative then "-" else ""
  }

  /** d is an integer below 2^53. */
  predicate SmallInteger(m: nat, e: int) {
    1 <= e <= 53 && m % Pow(2, 53 - e) == 0
  }

  /** The text of a positive finite float64 in the free format. */
  ghost predicate PrintedFree(m: nat, e: int, radix: nat, mode: ExponentMode, t: string)
    requires 2 <= radix <= 36
  {
    if SmallInteger(m, e) && mode != Enabled then t == Canonical(m / Pow(2, 53 - e), radix)
    else exists mant: nat, E: int, P: nat ::
      && Found(m, e, radix, mant, E, P) && (P == 1 || FailsAt(m, e, radix, P - 1))
      && t == Layout(DigitString(mant, radix, P), radix, E, UsesExponent(Free, mode, radix, P, E))
  }

  /** The same with n significant digits. */
  ghost predicate PrintedFixed(m: nat, e: int, radix: nat, n: nat, mode: ExponentMode, t: string)
    requires 2 <= radix <= 36 && n >= 1
  {
    exists mant: nat, E: int ::
      && RoundedTo(Double(m, e), radix, FirstExponent(e, radix), n, mant, E, NearestAway)
      && t == Layout(DigitString(mant, radix, n), radix, E, UsesExponent(Fixed, mode, radix, n, E))
  }

  /** The same with n digits behind the dot. */
  ghost predicate PrintedFrac(m: nat, e: int, radix: nat, n: nat, t: string)
    requires 2 <= radix <= 36
  {
    FracValue(m, e, radix, n) >= 0 && t == FracText(FracValue(m, e, radix, n), radix, n)
  }

  ghost predicate PrintedPositive(a: nat, radix: nat, n: nat, format: Format, mode: ExponentMode, t: string)
    requires 2 <= radix <= 36 && 0 < a < INFINITY && (format == Fixed ==> n >= 1)
  {
    var (m, e) := Decode(a);
    match format
    case Free => PrintedFree(m, e, radix, mode, t)
    case Fixed => PrintedFixed(m, e, radix, n, mode, t)
    case Frac => PrintedFrac(m, e, radix, n, t)
  }

  /** The number of zero digits printed for zero. */
  function ZeroDigitCount(format: Format, n: nat): nat {
    match format case Free => 1 case Fixed => n case Frac => n + 1
  }

  /** The text of a float64 with sign bit and magnitude bits a. */
  ghost predicate Printed(negative: bool, a: nat, radix: nat, n: nat, format: Format, mode: ExponentMode, minusZero: bool,
                          s: string)
    requires 2 <= radix <= 36 && (format == Fixed ==> n >= 1)
  {
    if a > INFINITY then s == "NaN"
    else if a == INFINITY then s == SignText(negative) + "Infinity"
    else if a == 0 then
      s == SignText(negative && minusZero) +
           Layout(DigitString(0, radix, ZeroDigitCount(format, n)), radix, 1, UsesExponent(format, mode, radix, n, 1))
    else
      exists t :: s == SignText(negative) + t && PrintedPositive(a, radix, n, format, mode, t)
  }

  // ----- js_dtoa -----

  lemma ExponentRange(e: int, radix: nat, E: int)
    requires -1073 <= e <= 1024 && 2 <= radix <= 36
    requires FirstExponent(e, radix) <= E <= FirstExponent(e, radix) + 1
    ensures -30000 <= E <= 30000
  {
    var bits := RadixBits(radix);
    if bits == 0 {
      TableSmall(radix);
      TableProduct(e - 1, MulLog2RadixTable(radix));
    }
  }

  lemma TableSmall(radix: nat)
    requires 2 <= radix <= 36
    ensures MulLog2RadixTable(radix) <= 0x100_0000
  {
  }

  lemma TableProduct(a: int, mult: int)
    requires -1074 <= a <= 1023 && 0 <= mult <= 0x100_0000
    ensures -1074 <= a * mult / 0x100_0000 <= 1023
  {
    if a >= 0 {
      MulGe(a, mult, 0x100_0000);
    } else {
      MulGe(-a, mult, 0x100_0000);
      assert (-a) * mult == -(a * mult);
    }
  }

  lemma SmallIntegerFits(m: nat, e: int)
    requires FinitePair(m, e) && 1 <= e <= 53
    ensures m / Pow(2, 53 - e) < DBASE
  {
    MulGe(m / Pow(2, 53 - e), 1, Pow(2, 53 - e));
  }

  method PrintFree(tmp: Mpb, m: nat, e: int, radix: nat, mode: ExponentMode) returns (t: string)
    requires FinitePair(m, e) && 2 <= radix <= 36 && tmp.tab.Length == DBIGNUM_LEN_MAX
    modifies tmp`len, tmp.tab
    ensures PrintedFree(m, e, radix, mode, t)
  {
    hide Pow, Found, FailsAt, Layout, DigitString, Canonical, UsesExponent, FinitePair, DtoaMaxDigits;
    if SmallInteger(m, e) && mode != Enabled {
      SmallIntegerFits(m, e);
      t := U64ToARadix(m / Pow(2, 53 - e), radix);
    } else {
      ExponentOfPair(m, e);
      var mant, E, P := FindDigits(tmp, m, e, radix);
      FoundBounds(m, e, radix, mant, E, P);
      ExponentRange(e, radix, E);
      t := Output(tmp, radix, P, E, UsesExponent(Free, mode, radix, P, E));
    }
  }

  lemma FoundBounds(m: nat, e: int, radix: nat, mant: nat, E: int, P: nat)
    requires 2 <= radix <= 36 && Found(m, e, radix, mant, E, P)
    ensures P >= 1 && FirstExponent(e, radix) <= E <= FirstExponent(e, radix) + 1
  {
  }

  method PrintFixed(tmp: Mpb, m: nat, e: int, radix: nat, n: nat, mode: ExponentMode) returns (t: string)
    requires FinitePair(m, e) && 2 <= radix <= 36 && 1 <= n <= MAX_DIGITS && tmp.tab.Length == DBIGNUM_LEN_MAX
    modifies tmp`len, tmp.tab
    ensures PrintedFixed(m, e, radix, n, mode, t)
  {
    hide Pow, RoundedTo, Layout, DigitString, UsesExponent, FinitePair, FirstExponent;
    ExponentOfPair(m, e);
    var mantMax := new Mpb(MANT_LEN_MAX);
    var E := FixedDigits(tmp, mantMax, m, e, radix, n);
    RangeOfRounding(m, e, radix, n, tmp.Value(), E, NearestAway);
    ExponentRange(e, radix, E);
    t := Output(tmp, radix, n, E, UsesExponent(Fixed, mode, radix, n, E));
  }

  method PrintPositive(tmp: Mpb, a: nat, radix: nat, n: nat, format: Format, mode: ExponentMode) returns (t: string)
    requires 2 <= radix <= 36 && n <= MAX_DIGITS && (format == Fixed ==> n >= 1) && 0 < a < INFINITY
    requires tmp.tab.Length == DBIGNUM_LEN_MAX
    modifies tmp`len, tmp.tab
    ensures PrintedPositive(a, radix, n, format, mode, t)
  {
    hide PrintedFree, PrintedFixed, FracText, FinitePair, Decode, FracValue;
    DecodeIsInverse(a);
    var (m, e) := Decode(a);
    match format {
      case Free => t := PrintFree(tmp, m, e, radix, mode);
      case Fixed => t := PrintFixed(tmp, m, e, radix, n, mode);
      case Frac => t := FracDigits(tmp, m, e, radix, n);
    }
  }

  /** js_dtoa on the 64 bits of a float64. */
  method JsDtoa(d: nat, radix: nat, n: nat, format: Format, mode: ExponentMode, minusZero: bool) returns (s: string)
    requires d < DBASE && 2 <= radix <= 36 && n <= MAX_DIGITS && (format == Fixed ==> n >= 1)
    ensures Printed(d / SIGN_BIT == 1, d % SIGN_BIT, radix, n, format, mode, minusZero, s)
  {
    hide PrintedPositive, Layout, DigitString, UsesExponent;
    var negative, a := d / SIGN_BIT == 1, d % SIGN_BIT;
    if a > INFINITY {
      return "NaN";
    }
    if a == INFINITY {
      return SignText(negative) + "Infinity";
    }
    var tmp := new Mpb(DBIGNUM_LEN_MAX);
    if a == 0 {
      tmp.len := 1;
      tmp.tab[0] := 0;
      OneLimb(tmp.tab[..1]);
      s := Output(tmp, radix, ZeroDigitCount(format, n), 1, UsesExponent(format, mode, radix, n, 1));
      s := SignText(negative && minusZero) + s;
    } else {
      s := PrintPositive(tmp, a, radix, n, format, mode);
      s := SignText(negative) + s;
    }
  }
}
