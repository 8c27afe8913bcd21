/** The notation js_dtoa chooses: when there is an exponent, how many digits there are, and that no zero is redundant. */
module Notation {
  import opened Arith
  import opened Rounding
  import opened RadixLog
  import opened Powers
  import opened Float64
  import opened ToFloat64
  import opened ReadBack
  import opened FreeDigits
  import opened Capacity
  import opened DtoaFree
  import opened CorrectRounding
  import opened Digits
  import opened IntText
  import opened DtoaFormats
  import opened Dtoa
  import opened RoundTrip

  // ----- the digits -----

  const DIGITS: string := "0123456789abcdefghijklmnopqrstuvwxyz"
  const CAPITALS: string := "ABCDEFGHIJKLMNOPQRSTUVWXYZ"

  /** The digits in their order: small letters are printed, capital ones read as well. */
  lemma Alphabet(d: nat, c: char)
    requires d < 36
    ensures DigitChar(d) == DIGITS[d]
    ensures ToDigit(c) == d <==> c == DIGITS[d] || (d >= 10 && c == CAPITALS[d - 10])
  {
    if d < 10 {
      TenDigits(d);
    } else if d < 23 {
      HalfLetters(d);
    } else {
      OtherLetters(d);
    }
  }

  lemma TenDigits(d: nat)
    requires d < 10
    ensures DIGITS[d] == '0' + d as char
  {
  }

  lemma HalfLetters(d: nat)
    requires 10 <= d < 23
    ensures DIGITS[d] == 'a' + (d - 10) as char && CAPITALS[d - 10] == 'A' + (d - 10) as char
  {
  }

  lemma OtherLetters(d: nat)
    requires 23 <= d < 36
    ensures DIGITS[d] == 'a' + (d - 10) as char && CAPITALS[d - 10] == 'A' + (d - 10) as char
  {
  }

  // ----- the shape of a text -----

  /** What stands between digits and exponent: p counts powers of two. */
  function Mark(radix: nat): char {
    if radix == 10 then 'e' else if radix == 2 || radix == 4 || radix == 8 || radix == 16 then 'p' else '@'
  }

  lemma MarkIs(radix: nat)
    requires 2 <= radix <= 36
    ensures Marker(radix) == Mark(radix)
    ensures ToDigit(Mark(radix)) >= radix && Mark(radix) != '.'
  {
    MarkerUnderstood(radix);
    if Mark(radix) == 'p' {
      PowersUpTo16();
    }
  }

  lemma PowersUpTo16()
    ensures forall radix :: radix == 2 || radix == 4 || radix == 8 || radix == 16 ==> Radix1(radix) == 1 && Ctz32(radix) <= 4
  {
    assert Ctz32(1) == 0 && Ctz32(2) == 1 && Radix1(1) == 1 && Radix1(2) == 1;
    assert Ctz32(4) == 2 && Radix1(4) == 1;
    assert Ctz32(8) == 3 && Radix1(8) == 1;
    assert Ctz32(16) == 4 && Radix1(16) == 1;
  }

  /** An integer without redundant zeros. */
  ghost predicate WholeText(w: string, radix: nat) {
    |w| >= 1 && DigitText(w, radix) && (|w| > 1 ==> w[0] != '0')
  }

  /** w.f, or w alone if f is empty. */
  ghost predicate PlainParts(t: string, radix: nat, w: string, f: string) {
    WholeText(w, radix) && DigitText(f, radix) && t == w + (if f == "" then "" else "." + f)
  }

  /** One digit, not zero, the fraction f, and a signed exponent x. */
  ghost predicate ExponentParts(t: string, radix: nat, w: string, f: string, down: bool, x: string) {
    && DigitText(w, radix) && |w| == 1 && w != "0" && DigitText(f, radix) && WholeText(x, 10) && (down ==> x != "0")
    && t == w + (if f == "" then "" else "." + f) + [Mark(radix)] + (if down then "-" else "+") + x
  }

  /** f does not end in a zero. */
  predicate Tidy(f: string) {
    f != "" ==> f[|f| - 1] != '0'
  }

  lemma NoMark(t: string, radix: nat)
    requires 2 <= radix <= 36 && DigitText(t, radix)
    ensures Mark(radix) !in t && '.' !in t
  {
    MarkIs(radix);
  }

  lemma PlainHasNoMark(t: string, radix: nat, w: string, f: string)
    requires 2 <= radix <= 36 && PlainParts(t, radix, w, f)
    ensures Mark(radix) !in t
  {
    hide DigitText;
    NoMark(w, radix);
    NoMark(f, radix);
    MarkIs(radix);
  }

  lemma ExponentHasMark(t: string, radix: nat, w: string, f: string, down: bool, x: string)
    requires ExponentParts(t, radix, w, f, down, x)
    ensures Mark(radix) in t
  {
    var head := w + (if f == "" then "" else "." + f);
    assert t[|head|] == Mark(radix);
  }

  // ----- the parts of a layout -----

  /** The exponent has no redundant zeros. */
  lemma {:induction false} CanonicalWhole(v: nat, radix: nat)
    requires 2 <= radix <= 36
    ensures WholeText(Canonical(v, radix), radix)
    ensures Canonical(v, radix) == "0" <==> v == 0
    ensures Canonical(v, radix)[0] == '0' <==> v == 0
    decreases v
  {
    CanonicalText(v, radix);
    if v < radix {
      DigitCharReads(v);
    } else {
      QuotientSmall(v, radix);
      QuotientNotZero(v, radix);
      CanonicalWhole(v / radix, radix);
    }
  }

  lemma QuotientNotZero(v: nat, radix: nat)
    requires 0 < radix <= v
    ensures v / radix > 0
  {
  }

  /** The first digit of mant is not zero, and the last one is zero exactly if the radix divides mant. */
  lemma EndDigits(mant: nat, radix: nat, P: nat)
    requires 2 <= radix <= 36 && P >= 1 && Pow(radix, P - 1) <= mant < Pow(radix, P)
    ensures var d := DigitString(mant, radix, P);
            DigitText(d, radix) && |d| == P && d[0] != '0' && (d[P - 1] == '0' <==> mant % radix == 0)
  {
    hide Pow;
    DigitStringText(mant, radix, P);
    TopDigitZero(mant, radix, P);
    DigitCharReads(mant % radix);
  }

  /** The digits behind the dot, at their number. */
  function Places(P: nat, E: int): nat {
    if E < P then P - E else 0
  }

  lemma LayoutParts(d: string, radix: nat, E: int)
    requires 2 <= radix <= 36 && |d| >= 1 && DigitText(d, radix) && d[0] != '0'
    ensures var h := ShapeOf(d, radix, E, false);
            && PlainParts(Layout(d, radix, E, false), radix, h.a, h.b) && |h.b| == Places(|d|, E)
            && (h.b != "" ==> h.b[|h.b| - 1] == d[|d| - 1])
            && Mark(radix) !in Layout(d, radix, E, false)
  {
    hide Layout, ShapeOf, DigitText;
    var h := ShapeOf(d, radix, E, false);
    ShapeFits(false, d, radix, E, false);
    ShapeDigits(d, radix, E);
    PlainTextOf(radix, h.a, h.b);
    PlainHasNoMark(Layout(d, radix, E, false), radix, h.a, h.b);
  }

  lemma ShapeDigits(d: string, radix: nat, E: int)
    requires |d| >= 1 && d[0] != '0'
    ensures var h := ShapeOf(d, radix, E, false);
            && |h.a| >= 1 && (|h.a| > 1 ==> h.a[0] != '0') && |h.b| == Places(|d|, E)
            && (h.b != "" ==> h.b[|h.b| - 1] == d[|d| - 1]) && h.suffix == NoSuffix
  {
  }

  lemma PlainTextOf(radix: nat, a: string, b: string)
    requires radix > 0
    ensures TextOf(false, radix, a, b, NoSuffix) == Plain(a, b)
    ensures forall t: string :: SignText(false) + t == t
  {
    assert Plain(a, b) + "" == Plain(a, b);
  }

  lemma ExponentLayout(d: string, radix: nat, E: int)
    requires 2 <= radix <= 36 && |d| >= 1 && DigitText(d, radix) && d[0] != '0'
    ensures var t := Layout(d, radix, E, true); var x := Magnified(radix, E - 1);
            && ExponentParts(t, radix, d[..1], d[1..], x < 0, Canonical(AbsInt(x), 10))
            && Mark(radix) in t
  {
    hide Canonical, Magnified;
    var x := Magnified(radix, E - 1);
    var c := Canonical(AbsInt(x), 10);
    CanonicalWhole(AbsInt(x), 10);
    MarkIs(radix);
    var head := d[..1] + (if d[1..] == "" then "" else "." + d[1..]);
    assert WithDot(d, 1) == head;
    var sign := if x < 0 then "-" else "+";
    assert head + ([Mark(radix)] + sign + c) == head + [Mark(radix)] + sign + c;
    ExponentHasMark(Layout(d, radix, E, true), radix, d[..1], d[1..], x < 0, c);
  }

  /** The sign is bit 63; infinity has all eleven exponent bits and no mantissa. */
  lemma FormatConstants()
    ensures SIGN_BIT == Pow(2, 63) && INFINITY == (Pow(2, 11) - 1) * Pow(2, 52)
  {
    FastPowIsPow(2, 63);
    FastPowIsPow(2, 11);
    assert FastPow(2, 63) == 0x8000_0000_0000_0000 && FastPow(2, 11) == 2048;
    TwoTo53();
  }

  // ----- when there is an exponent -----

  /** The exponent mode decides; in mode Auto the number y does: below radix^-6 and from radix^top on there is
      an exponent, in between there is none. */
  ghost predicate ExponentRule(t: string, radix: nat, mode: ExponentMode, y: real, top: int)
    requires radix > 0
  {
    match mode
    case Enabled => Mark(radix) in t
    case Disabled => Mark(radix) !in t
    case Auto => Mark(radix) in t <==> y < RPow(radix, -6) || y >= RPow(radix, top)
  }

  /** radix^(E - 1) <= y < radix^E for a number with E digits before the dot. */
  lemma ValueBracket(mant: nat, radix: nat, E: int, P: nat)
    requires 2 <= radix <= 36 && P >= 1 && Pow(radix, P - 1) <= mant < Pow(radix, P)
    ensures RPow(radix, E - 1) <= DigitValue(mant, radix, E, P) < RPow(radix, E)
  {
    hide Pow, RPow, Scale;
    ScaledBounds(mant as real, radix, P - 1, P, E - P);
  }

  lemma BracketRule(y: real, radix: nat, E: int, k: int)
    requires 2 <= radix <= 36 && RPow(radix, E - 1) <= y < RPow(radix, E)
    ensures E <= k <==> y < RPow(radix, k)
  {
    hide RPow;
    if E <= k {
      RPowMono(radix, E, k);
    } else {
      RPowMono(radix, k, E - 1);
    }
  }

  /** The layout that js_dtoa chooses for digits without a leading zero. */
  lemma ChosenLayout(mant: nat, P: nat, radix: nat, E: int, format: Format, mode: ExponentMode, n: nat)
    requires 2 <= radix <= 36 && P >= 1 && Pow(radix, P - 1) <= mant < Pow(radix, P)
    ensures var t := Layout(DigitString(mant, radix, P), radix, E, UsesExponent(format, mode, radix, n, E));
            && ExponentRule(t, radix, mode, DigitValue(mant, radix, E, P), if format == Fixed then n else DtoaMaxDigits(radix) + 4)
            && (if Mark(radix) in t
                then exists w, f, down, x :: ExponentParts(t, radix, w, f, down, x) && |f| == P - 1
                                             && (mant % radix != 0 ==> Tidy(f))
                else exists w, f :: PlainParts(t, radix, w, f) && |f| == Places(P, E) && (mant % radix != 0 ==> Tidy(f)))
  {
    hide Pow, RPow, DigitString, DigitText, Layout, DigitValue, Canonical, Magnified, DtoaMaxDigits, PlainParts, ExponentParts;
    var d, y := DigitString(mant, radix, P), DigitValue(mant, radix, E, P);
    var top := if format == Fixed then n else DtoaMaxDigits(radix) + 4;
    EndDigits(mant, radix, P);
    ValueBracket(mant, radix, E, P);
    BracketRule(y, radix, E, -6);
    BracketRule(y, radix, E, top);
    if UsesExponent(format, mode, radix, n, E) {
      ExponentLayout(d, radix, E);
      assert d[1..] != "" ==> d[1..][|d[1..]| - 1] == d[P - 1];
    } else {
      LayoutParts(d, radix, E);
    }
  }

  // ----- what js_dtoa prints -----

  /** The number a pattern stands for. */
  ghost function ValueOf(a: nat): real {
    Scale(Units(a) as real, 2, -1074)
  }

  lemma ValueIsDouble(a: nat)
    requires 0 < a < INFINITY
    ensures var (m, e) := Decode(a); FinitePair(m, e) && Pack(m, e) == a && Double(m, e) == ValueOf(a)
  {
    hide Pow, RPow, Scale, Units, Decode, Pack, Double;
    DecodeIsInverse(a);
    var (m, e) := Decode(a);
    PackExact(m, e);
    DoubleUnits(m, e, a);
  }

  lemma DoubleUnits(m: nat, e: int, a: nat)
    requires FinitePair(m, e) && a == GridExponent(e) * P52 + GridMantissa(m, e)
    requires GridMantissa(m, e) < P53 && (GridExponent(e) > 0 ==> GridMantissa(m, e) == m)
    requires OnGridOf(Double(m, e), e) == GridMantissa(m, e) as real
    ensures Double(m, e) == ValueOf(a)
  {
    hide Pow, RPow, Scale, Units, Double;
    var u, g, x := GridExponent(e), GridMantissa(m, e), Double(m, e);
    UnitsOf(u, g);
    ScaleAdd(InUnits(x), 2, -u, u);
    ScaleZero(InUnits(x), 2);
    ScaleNat(g, 2, u);
    ScaleAdd(x, 2, 1074, -1074);
    ScaleZero(x, 2);
  }

  /** The free format: the text denotes a number nearest to a; the exponent is there when the rule says so; and no
      zero is redundant. The bound of the rule is four more than the digits that always suffice. */
  lemma FreeText(negative: bool, a: nat, radix: nat, n: nat, mode: ExponentMode, minusZero: bool, s: string)
    requires 2 <= radix <= 36 && 0 < a < INFINITY && Printed(negative, a, radix, n, Free, mode, minusZero, s)
    ensures exists t, y :: s == SignText(negative) + t && TidyText(t, radix, mode, y) && SaysNear(s, radix, negative, y, a)
                           && ShortestDigits(ValueOf(a), a, radix, mode, y)
  {
    hide PrintedFree, Decode, SaysNear, TidyText, ShortestDigits, ValueOf, Double, FinitePair, Pack;
    var t :| s == SignText(negative) + t && PrintedPositive(a, radix, n, Free, mode, t);
    ValueIsDouble(a);
    var (m, e) := Decode(a);
    FreePositive(negative, m, e, radix, mode, t);
  }

  /** y is x correctly rounded to some number of digits, or an integer below 2^53 printed as it is; with one digit less,
      the correct rounding of x is not read back. */
  ghost predicate ShortestDigits(x: real, a: nat, radix: nat, mode: ExponentMode, y: real)
    requires radix > 0
  {
    || (mode != Enabled && y == x && x == x.Floor as real && x < P53 as real)
    || exists digits: nat :: digits >= 1 && IsRounding(x, radix, digits, y, NearestEven)
                             && (digits == 1 || NotEnough(x, a, radix, digits - 1))
  }

  /** x correctly rounded to so many digits is not read back as a. */
  ghost predicate NotEnough(x: real, a: nat, radix: nat, digits: nat)
    requires radix > 0
  {
    forall z :: IsRounding(x, radix, digits, z, NearestEven) ==> !Nearest(z, a)
  }

  lemma FailsIsNotEnough(m: nat, e: int, radix: nat, digits: nat)
    requires FinitePair(m, e) && 2 <= radix <= 36 && digits >= 1 && FailsAt(m, e, radix, digits)
    ensures NotEnough(Double(m, e), Pack(m, e), radix, digits)
  {
    hide FinitePair, Double, Pack, Nearest, IsRounding, DigitValue, RoundedTo, FirstExponent;
    var mant: nat, E: int :|
      RoundedTo(Double(m, e), radix, FirstExponent(e, radix), digits, mant, E, NearestEven)
      && !ReadsBack(m, e, radix, mant, E, digits);
    RoundedIsRounding(m, e, radix, digits, mant, E, NearestEven);
    forall z | IsRounding(Double(m, e), radix, digits, z, NearestEven)
      ensures !Nearest(z, Pack(m, e))
    {
      IsRoundingUnique(Double(m, e), radix, digits, z, DigitValue(mant, radix, E, digits), NearestEven);
    }
  }

  ghost predicate TidyText(t: string, radix: nat, mode: ExponentMode, y: real)
    requires radix > 0
  {
    && (exists digits: nat :: SufficientDigits(radix, digits) && ExponentRule(t, radix, mode, y, digits + 4))
    && if Mark(radix) in t then exists w, f, down, x :: ExponentParts(t, radix, w, f, down, x) && Tidy(f)
       else exists w, f :: PlainParts(t, radix, w, f) && Tidy(f)
  }

  /** The smallest number of digits that distinguishes all float64. */
  ghost predicate SufficientDigits(radix: nat, digits: nat) {
    digits >= 2 && Pow(radix, digits - 2) < Pow(2, 53) <= Pow(radix, digits - 1)
  }

  lemma MaxDigitsSuffice(radix: nat)
    requires 2 <= radix <= 36
    ensures SufficientDigits(radix, DtoaMaxDigits(radix))
  {
    hide Pow, DtoaMaxDigits;
    DigitTables(radix);
    DigitTablesTight(radix);
  }

  lemma FreePositive(negative: bool, m: nat, e: int, radix: nat, mode: ExponentMode, t: string)
    requires FinitePair(m, e) && 2 <= radix <= 36 && PrintedFree(m, e, radix, mode, t)
    ensures exists y :: TidyText(t, radix, mode, y) && SaysNear(SignText(negative) + t, radix, negative, y, Pack(m, e))
                        && ShortestDigits(Double(m, e), Pack(m, e), radix, mode, y)
  {
    hide Pow, RPow, FinitePair, Double, Layout, Denotes, Short, Nearest, Pack, Canonical, DigitString, UsesExponent,
         FailsAt, DtoaMaxDigits, AtodMaxDigits, PlainParts, ExponentParts, SufficientDigits, ExponentRule, DigitValue,
         RoundedTo, FirstExponent, IsRounding, NotEnough, SaysNear, TidyText;
    MaxDigitsFit(radix);
    if SmallInteger(m, e) && mode != Enabled {
      SmallIntegerValue(m, e, radix);
      ExactReadsBack(m, e);
      IntegerDenotes(negative, m / Pow(2, 53 - e), radix, DtoaMaxDigits(radix));
      IntegerNotation(m, e, radix, mode, t);
      SaysNearIs(SignText(negative) + t, radix, negative, Double(m, e), Pack(m, e));
      TwoTo53();
      SmallBound(m, e);
    } else {
      var mant: nat, E: int, P: nat :|
        && Found(m, e, radix, mant, E, P) && (P == 1 || FailsAt(m, e, radix, P - 1))
        && t == Layout(DigitString(mant, radix, P), radix, E, UsesExponent(Free, mode, radix, P, E));
      LayoutDenotes(negative, mant, P, radix, E, UsesExponent(Free, mode, radix, P, E));
      TidyTextIs(mant, P, radix, E, mode);
      SaysNearIs(SignText(negative) + t, radix, negative, DigitValue(mant, radix, E, P), Pack(m, e));
      RoundedIsRounding(m, e, radix, P, mant, E, NearestEven);
      if P > 1 {
        FailsIsNotEnough(m, e, radix, P - 1);
      }
    }
  }

  lemma SaysNearIs(s: string, radix: nat, negative: bool, y: real, a: nat)
    requires 2 <= radix <= 36 && Denotes(s, radix, negative, y) && Short(s, radix) && Nearest(y, a)
    ensures SaysNear(s, radix, negative, y, a)
  {
  }

  lemma SmallBound(m: nat, e: int)
    requires FinitePair(m, e) && SmallInteger(m, e)
    ensures m / Pow(2, 53 - e) < P53
  {
    PowPositive(2, 53 - e);
    QuotientSmaller(m, Pow(2, 53 - e));
  }

  lemma QuotientSmaller(m: nat, p: nat)
    requires p >= 1
    ensures m / p <= m
  {
    MulGe(m / p, 1, p);
  }

  lemma TidyTextIs(mant: nat, P: nat, radix: nat, E: int, mode: ExponentMode)
    requires 2 <= radix <= 36 && P >= 1 && Pow(radix, P - 1) <= mant < Pow(radix, P) && mant % radix != 0
    ensures TidyText(Layout(DigitString(mant, radix, P), radix, E, UsesExponent(Free, mode, radix, P, E)), radix, mode,
                     DigitValue(mant, radix, E, P))
  {
    hide Pow, DigitString, Layout, UsesExponent, PlainParts, ExponentParts, ExponentRule, DigitValue, SufficientDigits, DtoaMaxDigits;
    ChosenLayout(mant, P, radix, E, Free, mode, P);
    MaxDigitsSuffice(radix);
  }

  /** An integer below 2^53 needs no exponent. */
  lemma IntegerNotation(m: nat, e: int, radix: nat, mode: ExponentMode, t: string)
    requires FinitePair(m, e) && 2 <= radix <= 36 && SmallInteger(m, e) && mode != Enabled
    requires t == Canonical(m / Pow(2, 53 - e), radix)
    ensures TidyText(t, radix, mode, Double(m, e))
  {
    hide Pow, RPow, Canonical, DtoaMaxDigits, Double, Scale;
    var v := m / Pow(2, 53 - e);
    SmallIntegerValue(m, e, radix);
    CanonicalWhole(v, radix);
    MaxDigitsSuffice(radix);
    DoubleBounds(m, e);
    RPowGeOne(2, e - 1);
    var k := DtoaMaxDigits(radix);
    RPowMono(radix, -6, 0);
    RPowZero(radix);
    PositivePower(radix, k);
    RPowMono(radix, k, k + 4);
    EmptyText(radix);
    assert t + "" == t;
    assert PlainParts(t, radix, t, "");
    PlainHasNoMark(t, radix, t, "");
    assert ExponentRule(t, radix, mode, Double(m, e), k + 4);
  }

  /** Integers below 2^53 are printed digit by digit unless an exponent is asked for. */
  lemma IntegerText(negative: bool, a: nat, v: nat, radix: nat, n: nat, mode: ExponentMode, minusZero: bool, s: string)
    requires 2 <= radix <= 36 && 0 < a < INFINITY && mode != Enabled
    requires Printed(negative, a, radix, n, Free, mode, minusZero, s) && ValueOf(a) == v as real && v < P53
    ensures s == SignText(negative) + Canonical(v, radix)
  {
    hide Decode, Scale, Pow, RPow, Canonical, Units, Double, Layout, Found, FailsAt, UsesExponent;
    ValueIsDouble(a);
    var (m, e) := Decode(a);
    DoubleBounds(m, e);
    TwoTo53();
    PositivePower(2, 53);
    if e < 1 {
      RPowMono(2, e, 0);
      RPowZero(2);
      assert false;
    }
    if e > 53 {
      RPowMono(2, 53, e - 1);
      assert false;
    }
    WholeMantissa(m, e, v);
  }

  lemma WholeMantissa(m: nat, e: int, v: nat)
    requires 1 <= e <= 53 && Double(m, e) == v as real
    ensures SmallInteger(m, e) && m / Pow(2, 53 - e) == v
  {
    hide Pow, RPow, Scale;
    ScaleAdd(m as real, 2, e - 53, 53 - e);
    ScaleZero(m as real, 2);
    ScaleNat(v, 2, 53 - e);
    PowPositive(2, 53 - e);
    DivUnique(m, Pow(2, 53 - e), v, 0);
  }

  /** n significant digits: correctly rounded, the exponent as the rule says with the bound n, and n digits shown
      unless zeros have to be added before the dot. */
  lemma FixedText(negative: bool, a: nat, radix: nat, n: nat, mode: ExponentMode, minusZero: bool, s: string)
    requires 2 <= radix <= 36 && n >= 1 && 0 < a < INFINITY && Printed(negative, a, radix, n, Fixed, mode, minusZero, s)
    ensures exists t, mant: nat, E: int :: s == SignText(negative) + t && PreciseText(t, radix, n, mode, mant, E)
                           && IsRounding(ValueOf(a), radix, n, DigitValue(mant, radix, E, n), NearestAway)
                           && Denotes(s, radix, negative, DigitValue(mant, radix, E, n))
  {
    hide Decode, Denotes, Double, ValueOf, RoundedTo, FirstExponent, UsesExponent, Layout, DigitString, Pow, PreciseText,
         FinitePair, DigitValue, IsRounding;
    var t :| s == SignText(negative) + t && PrintedPositive(a, radix, n, Fixed, mode, t);
    ValueIsDouble(a);
    var (m, e) := Decode(a);
    var mant: nat, E: int :|
      && RoundedTo(Double(m, e), radix, FirstExponent(e, radix), n, mant, E, NearestAway)
      && t == Layout(DigitString(mant, radix, n), radix, E, UsesExponent(Fixed, mode, radix, n, E));
    LeadingDigit(m, e, radix, n, mant, E, NearestAway);
    RangeOfRounding(m, e, radix, n, mant, E, NearestAway);
    RoundedIsRounding(m, e, radix, n, mant, E, NearestAway);
    LayoutDenotes(negative, mant, n, radix, E, UsesExponent(Fixed, mode, radix, n, E));
    FixedNotation(mant, n, radix, E, mode);
  }

  ghost predicate PreciseText(t: string, radix: nat, n: nat, mode: ExponentMode, mant: nat, E: int)
    requires radix > 0 && n >= 1
  {
    && Pow(radix, n - 1) <= mant < Pow(radix, n)
    && ExponentRule(t, radix, mode, DigitValue(mant, radix, E, n), n)
    && if Mark(radix) in t then exists w, f, down, x :: ExponentParts(t, radix, w, f, down, x) && |f| == n - 1
       else exists w, f :: PlainParts(t, radix, w, f) && |f| == Places(n, E)
  }

  lemma FixedNotation(mant: nat, n: nat, radix: nat, E: int, mode: ExponentMode)
    requires 2 <= radix <= 36 && n >= 1 && Pow(radix, n - 1) <= mant < Pow(radix, n)
    ensures PreciseText(Layout(DigitString(mant, radix, n), radix, E, UsesExponent(Fixed, mode, radix, n, E)), radix, n, mode, mant, E)
  {
    hide Pow, DigitString, Layout, UsesExponent, PlainParts, ExponentParts, ExponentRule, DigitValue;
    ChosenLayout(mant, n, radix, E, Fixed, mode, n);
  }

  /** n digits behind the dot: the nearest such number, and no redundant zero before the dot. */
  lemma FractionText(negative: bool, a: nat, radix: nat, n: nat, mode: ExponentMode, minusZero: bool, s: string)
    requires 2 <= radix <= 36 && 0 < a < INFINITY && Printed(negative, a, radix, n, Frac, mode, minusZero, s)
    ensures exists t, v: nat :: s == SignText(negative) + t && NearestScaled(ValueOf(a), radix, n, v)
                           && Denotes(s, radix, negative, Scale(v as real, radix, 0 - n))
                           && exists w, f :: PlainParts(t, radix, w, f) && |f| == n
  {
    hide Decode, Denotes, Double, ValueOf, Scale, PlainParts;
    var t :| s == SignText(negative) + t && PrintedPositive(a, radix, n, Frac, mode, t);
    ValueIsDouble(a);
    var (m, e) := Decode(a);
    FracDenotes(negative, m, e, radix, n, t);
    FracParts(FracValue(m, e, radix, n), radix, n);
  }

  lemma FracParts(v: nat, radix: nat, n: nat)
    requires 2 <= radix <= 36
    ensures exists w, f :: PlainParts(FracText(v, radix, n), radix, w, f) && |f| == n
  {
    hide Pow, Canonical, DigitString;
    PowPositive(radix, n);
    var w, f := Canonical(v / Pow(radix, n), radix), if n == 0 then "" else DigitString(v, radix, n);
    CanonicalWhole(v / Pow(radix, n), radix);
    DigitStringText(v, radix, n);
    EmptyText(radix);
    assert PlainParts(FracText(v, radix, n), radix, w, f);
  }

  // ----- zero -----

  lemma {:induction false} ZeroDigitString(radix: nat, n: nat)
    requires 2 <= radix <= 36
    ensures DigitString(0, radix, n) == Repeat('0', n)
  {
    if n > 0 {
      ZeroDigitString(radix, n - 1);
      assert 0 / radix == 0 && 0 % radix == 0;
    }
  }

  /** The digits of zero behind the dot. */
  function ZeroPlaces(format: Format, n: nat): int {
    match format case Free => 0 case Fixed => n - 1 case Frac => n
  }

  lemma ZeroLayout(radix: nat, k: nat, exponential: bool)
    requires 2 <= radix <= 36 && k >= 1
    ensures Layout(DigitString(0, radix, k), radix, 1, exponential) ==
            "0" + (if k > 1 then "." + Repeat('0', k - 1) else "") + (if exponential then [Mark(radix)] + "+0" else "")
  {
    hide DigitString, Canonical, Marker, Mark;
    ZeroDigitString(radix, k);
    var d := Repeat('0', k);
    assert d[..1] == "0" && d[1..] == Repeat('0', k - 1);
    var t := "0" + (if k > 1 then "." + Repeat('0', k - 1) else "");
    assert WithDot(d, 1) == t;
    if exponential {
      ZeroExponent(radix);
    } else {
      assert t + "" == t;
    }
  }

  lemma ZeroExponent(radix: nat)
    requires 2 <= radix <= 36
    ensures ExponentText(radix, 0) == [Mark(radix)] + "+0"
  {
    hide Canonical, Mark;
    MarkIs(radix);
    CanonicalWhole(0, 10);
    assert 0 * Ctz32(radix) == 0;
  }

  /** Zero is "0", with as many zeros behind the dot as the format asks for and an exponent only if it is asked for;
      its sign shows if that is asked for. */
  lemma ZeroText(negative: bool, radix: nat, n: nat, format: Format, mode: ExponentMode, minusZero: bool, s: string)
    requires 2 <= radix <= 36 && (format == Fixed ==> n >= 1) && Printed(negative, 0, radix, n, format, mode, minusZero, s)
    ensures s == (if negative && minusZero then "-" else "")
                 + ("0" + (if ZeroPlaces(format, n) > 0 then "." + Repeat('0', ZeroPlaces(format, n)) else "")
                    + (if mode == Enabled then [Mark(radix)] + "+0" else ""))
  {
    hide DigitString, DtoaMaxDigits, Layout, Mark;
    NoExponentOfZero(radix);
    ZeroLayout(radix, ZeroDigitCount(format, n), mode == Enabled);
  }

  lemma NoExponentOfZero(radix: nat)
    requires 2 <= radix <= 36
    ensures DtoaMaxDigits(radix) >= 1
  {
  }

  // ----- in decimal -----

  lemma DecimalBounds()
    ensures Mark(10) == 'e' && RPow(10, -6) == 0.000001 && RPow(10, 21) == 1000000000000000000000.0
    ensures forall digits: nat :: SufficientDigits(10, digits) ==> digits == 17
  {
    hide Pow, RPow;
    FastPowIsPow(10, 21);
    FastPowIsPow(10, 6);
    assert FastPow(10, 21) == 1000000000000000000000 && FastPow(10, 6) == 1000000;
    PositivePower(10, 21);
    PositivePower(10, 6);
    RPowInverse(10, 6);
    FastPowIsPow(10, 15);
    FastPowIsPow(10, 16);
    assert FastPow(10, 15) == 1000000000000000 && FastPow(10, 16) == 10000000000000000;
    TwoTo53();
    forall digits: nat | SufficientDigits(10, digits)
      ensures digits == 17
    {
      if digits <= 16 {
        PowMono(10, digits - 1, 15);
      } else if digits >= 18 {
        PowMono(10, 16, digits - 2);
      }
    }
  }

  /** What JavaScript's conversion of a number to a string rests on: an exponent exactly below 10^-6 and from
      10^21 on. */
  lemma DecimalText(negative: bool, a: nat, n: nat, minusZero: bool, s: string)
    requires 0 < a < INFINITY && Printed(negative, a, 10, n, Free, Auto, minusZero, s)
    ensures exists y :: SaysNear(s, 10, negative, y, a)
                        && ('e' in s <==> y < 0.000001 || y >= 1000000000000000000000.0)
  {
    hide Printed, SaysNear, RPow, SufficientDigits;
    FreeText(negative, a, 10, n, Auto, minusZero, s);
    DecimalBounds();
    var t, y :| s == SignText(negative) + t && TidyText(t, 10, Auto, y) && SaysNear(s, 10, negative, y, a);
    assert 'e' in s <==> 'e' in t;
  }

  /** The same with n significant digits: below 10^-6 and from 10^n on. */
  lemma DecimalPrecision(negative: bool, a: nat, n: nat, minusZero: bool, s: string)
    requires n >= 1 && 0 < a < INFINITY && Printed(negative, a, 10, n, Fixed, Auto, minusZero, s)
    ensures exists y :: Denotes(s, 10, negative, y) && IsRounding(ValueOf(a), 10, n, y, NearestAway)
                        && ('e' in s <==> y < 0.000001 || y >= RPow(10, n))
  {
    hide Printed, Denotes, RPow, IsRounding, DigitValue;
    FixedText(negative, a, 10, n, Auto, minusZero, s);
    DecimalBounds();
    var t, mant: nat, E: int :| s == SignText(negative) + t && PreciseText(t, 10, n, Auto, mant, E)
                           && IsRounding(ValueOf(a), 10, n, DigitValue(mant, 10, E, n), NearestAway)
                           && Denotes(s, 10, negative, DigitValue(mant, 10, E, n));
    assert 'e' in s <==> 'e' in t;
  }
}
