/** js_atod: the float64 nearest to the numeral at the start of a text. */
module Atod {
  import opened Arith
  import opened Limbs
  import opened Rounding
  import opened Bignum
  import opened RadixLog
  import opened Powers
  import opened Scaling
  import opened Float64
  import opened ToFloat64
  import opened Capacity
  import opened Digits
  import opened Numeral
  import opened AtodDigits
  import opened AtodValue

  /** Positions and digit counts are C ints; texts up to this length keep them from wrapping
      and keep a literal exponent too large for the parser out of reach of the digits. */
  const TEXT_MAX: nat := 500_000_000

  /** A float64: sign and the remaining bits. */
  datatype Float = NaN | Float(negative: bool, bits: nat)

  /** What js_atod promises for a numeral. */
  ghost predicate Converts(n: Numeral, f: Float) {
    match n
    case Malformed(_) => f == NaN
    case Infinity(negative, _) => f == Float(negative, INFINITY)
    case Number(negative, radix, digits, fraction, exponent, binary, _) =>
      && radix > 0 && f.Float? && f.negative == negative
      && Nearest(Magnitude(Significand(radix, digits), radix, fraction, exponent, binary), f.bits)
  }

  // ----- the exponent -----

  /** (INT32_MAX - 2 - 9) / 10 */
  const EXPN_LIMIT: nat := 214748363

  /** What the exponent loop knows of the digits read. */
  ghost predicate Saturated(expn: nat, overflow: bool, digits: seq<nat>) {
    if overflow then DigitsValue(digits, 10) >= 10 * (EXPN_LIMIT + 1) else expn == DigitsValue(digits, 10)
  }

  lemma SaturatedStep(expn: nat, overflow: bool, digits: seq<nat>, c: nat)
    requires Saturated(expn, overflow, digits)
    ensures overflow || expn > EXPN_LIMIT ==> Saturated(expn, true, digits + [c])
    ensures !overflow && expn <= EXPN_LIMIT ==> Saturated(expn * 10 + c, false, digits + [c])
  {
    SnocDigit(digits, c, 10);
  }

  lemma SeqAssoc(a: seq<nat>, c: nat, b: seq<nat>)
    ensures a + ([c] + b) == (a + [c]) + b
  {
  }

  lemma DecimalRound(s: string, p: nat, sep: bool, q: nat)
    requires q == if sep && At(s, p) == '_' && ToDigit(At(s, p + 1)) < 10 then p + 1 else p
    ensures var c := ToDigit(At(s, q));
            ScanDecimal(s, p, sep) ==
            if c >= 10 then ([], q) else ([c] + ScanDecimal(s, q + 1, sep).0, ScanDecimal(s, q + 1, sep).1)
    ensures ToDigit(At(s, q)) < 10 ==> q < |s|
  {
  }

  /** The decimal digits of an exponent, saturating. */
  method ReadDecimal(s: string, p0: nat, sep: bool, c0: nat) returns (p: nat, expn: nat, overflow: bool)
    ensures var r := ScanDecimal(s, p0, sep); p == r.1 && Saturated(expn, overflow, [c0] + r.0)
  {
    hide Saturated, DigitsValue, ScanDecimal, ToDigit;
    ghost var all := ScanDecimal(s, p0, sep);
    ghost var read := [c0];
    FirstDigit(c0);
    p, expn, overflow := p0, c0, false;
    while true
      invariant all.1 == ScanDecimal(s, p, sep).1
      invariant [c0] + all.0 == read + ScanDecimal(s, p, sep).0
      invariant Saturated(expn, overflow, read)
      decreases |s| - p
    {
      DecimalRound(s, p, sep, if sep && At(s, p) == '_' && ToDigit(At(s, p + 1)) < 10 then p + 1 else p);
      if sep && At(s, p) == '_' && ToDigit(At(s, p + 1)) < 10 {
        p := p + 1;
      }
      var c := ToDigit(At(s, p));
      if c >= 10 {
        break;
      }
      SeqAssoc(read, c, ScanDecimal(s, p + 1, sep).0);
      SaturatedStep(expn, overflow, read, c);
      if !overflow {
        if expn > EXPN_LIMIT {
          overflow := true;
        } else {
          expn := expn * 10 + c;
        }
      }
      read := read + [c];
      p := p + 1;
    }
    assert [c0] + all.0 == read;
  }

  lemma FirstDigit(c: nat)
    ensures Saturated(c, false, [c])
  {
    OneDigit([c], 10);
  }

  datatype ExponentPart = Rejected | Accepted(expn: int, overflow: bool, negative: bool, binary: bool)

  /** What was read is the exponent of the text, unless it overflowed the parser's integers. */
  ghost predicate IsExponent(e: Exponent, r: ExponentPart, p: nat, next: nat) {
    match e
    case NoExponent => r == Accepted(0, false, false, false) && next == p
    case BadExponent(at) => r == Rejected && next == at
    case Exponent(negative, binary, digits, q) =>
      && r.Accepted? && r.negative == negative && r.binary == binary && next == q
      && (if r.overflow then DigitsValue(digits, 10) >= 10 * (EXPN_LIMIT + 1) else r.expn == ExponentValue(e))
  }

  method ReadExponent(s: string, p0: nat, st: Style) returns (r: ExponentPart, p: nat)
    ensures IsExponent(ScanExponent(s, p0, st), r, p0, p)
  {
    hide DigitsValue, ScanDecimal;
    p := p0;
    if !MarkerAt(s, p, st) {
      return Accepted(0, false, false, false), p;
    }
    var binary := IsBinaryMarker(At(s, p));
    p := p + 1;
    var negative := false;
    if At(s, p) == '+' {
      p := p + 1;
    } else if At(s, p) == '-' {
      negative := true;
      p := p + 1;
    }
    var c := ToDigit(At(s, p));
    if c >= 10 {
      return Rejected, p;
    }
    var expn, overflow;
    p, expn, overflow := ReadDecimal(s, p + 1, st.sep, c);
    var signed: int := expn;
    r := Accepted(if negative then -signed else signed, overflow, negative, binary);
  }

  // ----- exponents beyond the parser's integers -----

  /** A number of at most n digits with at most n of them behind the dot cannot bring an
      exponent of 2^31 or so back into the range of a float64. */
  lemma HugeExponent(n: nat, radix: nat, fraction: nat, exponent: int, binary: bool, count: nat)
    requires 2 <= radix <= 36 && 0 < n < Pow(radix, count) && count <= TEXT_MAX && fraction <= TEXT_MAX
    requires binary ==> 1 <= RadixBits(radix) <= 4
    ensures exponent >= 2147483640 ==> Nearest(Magnitude(n, radix, fraction, exponent, binary), INFINITY)
    ensures exponent <= -2147483640 ==> Nearest(Magnitude(n, radix, fraction, exponent, binary), 0)
  {
    hide Pow, RPow, Scale, Nearest, RadixBits, Magnitude;
    var x := Magnitude(n, radix, fraction, exponent, binary);
    MagnitudeBounds(n, radix, fraction, exponent, binary, count);
    if exponent >= 2147483640 {
      PowersOfRadix(radix, exponent - fraction);
      RPowMono(2, 1024, exponent - 4 * fraction);
      RPowMono(2, 1024, exponent - fraction);
      NearestOverflow(x);
    } else if exponent <= -2147483640 {
      PowersOfRadix(radix, count + exponent);
      RPowMono(2, 4 * count + exponent, -1075);
      RPowMono(2, count + exponent, -1075);
      NearestUnderflow(x);
    }
  }

  /** Powers of the radix are further from one than powers of two. */
  lemma PowersOfRadix(radix: nat, e: int)
    requires radix >= 2
    ensures e >= 0 ==> RPow(2, e) <= RPow(radix, e)
    ensures e <= 0 ==> RPow(radix, e) <= RPow(2, e)
  {
    hide Pow;
    if e >= 0 {
      PowBaseMono(2, radix, e);
    }
    if e <= 0 {
      PowBaseMono(2, radix, -e);
      Inverses(radix, e);
    }
  }

  lemma Inverses(radix: nat, e: int)
    requires radix >= 2 && e <= 0 && Pow(2, -e) <= Pow(radix, -e)
    ensures RPow(radix, e) <= RPow(2, e)
  {
    hide Pow, RPow;
    RPowInverse(radix, e);
    RPowInverse(2, e);
    PositivePower(radix, -e);
    PositivePower(2, -e);
    InverseMono(RPow(2, e), RPow(radix, e), RPow(2, -e), RPow(radix, -e));
  }

  lemma MagnitudeBounds(n: nat, radix: nat, fraction: nat, exponent: int, binary: bool, count: nat)
    requires 2 <= radix <= 36 && 0 < n < Pow(radix, count)
    requires binary ==> 1 <= RadixBits(radix) <= 4
    ensures var x := Magnitude(n, radix, fraction, exponent, binary);
            if binary then RPow(2, exponent - 4 * fraction) <= x < RPow(2, 4 * count + exponent)
            else RPow(radix, exponent - fraction) <= x < RPow(radix, count + exponent)
  {
    hide Pow, RPow, Scale, RadixBits;
    PowOne(2);
    PowOne(radix);
    if binary {
      var b := RadixBits(radix);
      RadixIsPower(radix);
      BinaryMagnitude(n, radix, fraction, exponent, true);
      PowOfPow(2, b, count);
      ScaledBounds(n as real, 2, 0, b * count, exponent - fraction * b);
      MulGe(fraction, b, 4);
      MulGe(count, b, 4);
      MulGe(fraction, 0, b);
      RPowMono(2, exponent - 4 * fraction, exponent - fraction * b);
      RPowMono(2, b * count + (exponent - fraction * b), 4 * count + exponent);
    } else {
      ScaledBounds(n as real, radix, 0, count, exponent - fraction);
      RPowMono(radix, count + (exponent - fraction), count + exponent);
    }
  }

  // ----- from digits to the result -----

  /** What the scanning part of js_atod hands to the conversion. */
  ghost predicate Scanned(tmp: nat, radix: nat, sig: seq<nat>, kept: nat, extra: bool) {
    && 2 <= radix <= 36 && |sig| > 0 && sig[0] != 0
    && Accumulated(tmp, 0, 0, radix, sig, kept, extra)
  }

  lemma ScannedSize(tmp: nat, radix: nat, sig: seq<nat>, kept: nat, extra: bool)
    requires Scanned(tmp, radix, sig, kept, extra)
    ensures 2 <= radix <= 36 && |sig| > 0 && sig[0] != 0 && kept == Min(|sig|, AtodMaxDigits(radix))
    ensures 1 <= kept <= |sig| && kept <= AtodMaxDigits(radix) && tmp == DigitsValue(sig[..kept], radix)
    ensures Pow(radix, kept - 1) <= tmp < Pow(radix, kept) <= Pow(2, 128)
    ensures kept < |sig| ==> kept == AtodMaxDigits(radix)
    ensures forall i :: 0 <= i < |sig| ==> sig[i] < radix
    ensures extra <==> AnyNonZero(sig[kept..])
  {
    hide Pow, AtodMaxDigits, DigitsValue, AnyNonZero;
    DigitTables(radix);
    HeldAtLeast(tmp, 0, 0, radix);
    SizeOfDigits(sig[..kept], radix);
    PowMono(radix, kept, AtodMaxDigits(radix));
  }

  /** In a power-of-two radix, the digits kept before a dropped one fill 55 bits. */
  lemma EnoughBits(radix: nat, v: nat)
    requires 2 <= radix <= 36 && RadixBits(radix) != 0 && Pow(radix, AtodMaxDigits(radix) - 1) <= v
    ensures v >= Pow(2, 55)
  {
    var b, n := RadixBits(radix), AtodMaxDigits(radix) - 1;
    assert b * n >= 55;
    hide Pow, AtodMaxDigits, RadixBits;
    RadixIsPower(radix);
    PowOfPow(2, b, n);
    PowMono(2, 55, b * n);
  }

  /** The number in a power-of-two radix, seen from the accumulated digits. */
  lemma BinaryNumber(tmp: nat, radix: nat, sig: seq<nat>, kept: nat, extra: bool, u: nat, n: nat, x: real, expn: int)
    requires Scanned(tmp, radix, sig, kept, extra) && RadixBits(radix) != 0
    requires n == tmp * Pow(radix, |sig| - kept) + Tail(radix, sig, kept)
    requires u == if extra && tmp % 2 == 0 then tmp + 1 else tmp
    requires x == Scale(n as real, 2, expn - (|sig| - kept) * RadixBits(radix))
    ensures Represents(u, x, -expn)
    ensures var b := RadixBits(radix); RPow(2, (kept - 1) * b + expn) <= x < RPow(2, kept * b + expn)
  {
    hide Pow, RPow, Scale, RadixBits, AtodMaxDigits, Scanned, Tail;
    var b, k := RadixBits(radix), |sig| - kept;
    Distribute(|sig|, kept, b);
    Commute(k, b);
    Commute(kept, b);
    Commute(kept - 1, b);
    ScannedSize(tmp, radix, sig, kept, extra);
    TailBound(radix, sig, kept);
    RadixIsPower(radix);
    PowOfPow(2, b, k);
    PowOfPow(2, b, kept);
    PowOfPow(2, b, kept - 1);
    PowPositive(radix, kept - 1);
    if kept < |sig| {
      EnoughBits(radix, tmp);
    } else {
      PowOne(radix);
    }
    GrowsPositive(tmp, Pow(2, b * k), Tail(radix, sig, kept), n);
    StickyDigits(tmp, Tail(radix, sig, kept), n, b * k, x, expn - b * k, u);
    var t := Scale(x, 2, -expn);
    ScaledBounds(t, 2, b * (kept - 1), b * kept, expn);
    ScaleAdd(x, 2, -expn, expn);
    ScaleZero(x, 2);
  }

  lemma Distribute(x: int, y: int, b: int)
    ensures (x - y) * b == x * b - y * b
  {
  }

  lemma Commute(x: int, y: int)
    ensures x * y == y * x
  {
  }

  lemma GrowsPositive(v: nat, p: nat, w: nat, n: nat)
    requires v > 0 && p > 0 && n == v * p + w
    ensures n > 0
  {
    MulGe(v, 1, p);
  }

  /** The conversion of non-zero digits. */
  method ConvertDigits(tmp: Mpb, st: Style, kept: nat, extra: bool, r: ExponentPart, expnOffset: int,
                       ghost pos: nat, ghost sig: seq<nat>, ghost fraction: nat, ghost exponent: int)
    returns (a: nat)
    requires tmp.Valid() && tmp.Normal() && tmp.tab.Length == DBIGNUM_LEN_MAX
    requires Scanned(tmp.Value(), st.radix, sig, kept, extra)
    requires r.Accepted? && !r.overflow && r.expn == exponent && (r.binary ==> RadixBits(st.radix) != 0)
    requires expnOffset == fraction - (|sig| - kept)
    modifies tmp`len, tmp.tab
    ensures Nearest(Magnitude(Significand(st.radix, Zeros(pos) + sig), st.radix, fraction, exponent, r.binary), a)
  {
    hide Pow, RPow, Scale, Represents, Nearest, Magnitude, Significand, Scanned, RadixBits, AtodMaxDigits, Tail;
    var radix := st.radix;
    ghost var v := tmp.Value();
    ScannedSize(v, radix, sig, kept, extra);
    SignificandOf(radix, pos, sig, kept);
    SetLowBit(tmp, RadixBits(radix) != 0 && extra);
    if RadixBits(radix) != 0 {
      var b := RadixBits(radix);
      RadixIsPower(radix);
      var expn := r.expn;
      if !r.binary {
        expn := expn * b;
      }
      expn := expn - expnOffset * b;
      ghost var n := Significand(radix, Zeros(pos) + sig);
      BinaryMagnitude(n, radix, fraction, exponent, r.binary);
      Distribute(fraction, |sig| - kept, b);
      ghost var x := Magnitude(n, radix, fraction, exponent, r.binary);
      BinaryNumber(v, radix, sig, kept, extra, tmp.Value(), n, x, expn);
      RepresentsPositive(tmp.Value(), x, -expn);
      a := FromBinary(tmp, b, kept, expn, x);
    } else {
      NoTail(radix, sig, kept);
      MagnitudeOf(v, |sig| - kept, radix, fraction, exponent);
      a := FromRadix(tmp, radix, kept, r.expn - expnOffset);
    }
  }

  lemma RepresentsPositive(v: nat, x: real, k: int)
    requires Represents(v, x, k)
    ensures v > 0
  {
  }

  lemma NoTail(radix: nat, sig: seq<nat>, kept: nat)
    requires kept <= |sig| && RadixBits(radix) == 0
    ensures Tail(radix, sig, kept) == 0
  {
  }

  lemma SignificandBound(tmp: nat, radix: nat, pos: nat, sig: seq<nat>, kept: nat, extra: bool)
    requires Scanned(tmp, radix, sig, kept, extra)
    ensures 0 < Significand(radix, Zeros(pos) + sig) < Pow(radix, |sig|)
  {
    hide Pow, Scanned, Significand, Tail, AtodMaxDigits;
    ScannedSize(tmp, radix, sig, kept, extra);
    SignificandOf(radix, pos, sig, kept);
    TailBound(radix, sig, kept);
    PowPositive(radix, kept - 1);
    PowAdd(radix, kept, |sig| - kept);
    BelowProduct(tmp, Pow(radix, kept), Tail(radix, sig, kept), Pow(radix, |sig| - kept));
  }

  lemma BelowProduct(v: nat, a: nat, w: nat, p: nat)
    requires 0 < v < a && w < p
    ensures 0 < v * p + w < a * p
  {
    MulMono(v + 1, a, p, p);
  }

  /** No significant digits: the result is zero. */
  lemma ZeroDigitsConvert(radix: nat, pos: nat, fraction: nat, exponent: int, binary: bool)
    requires 2 <= radix <= 36
    ensures Nearest(Magnitude(Significand(radix, Zeros(pos) + []), radix, fraction, exponent, binary), 0)
  {
    hide Nearest, Significand;
    NoSignificand(radix, pos);
    RPowPositive(-1075);
    NearestUnderflow(0.0);
  }

  lemma RPowPositive(e: int)
    ensures RPow(2, e) >= 0.0
  {
  }

  lemma BinaryOnlyForPowers(s: string, p: nat, st: Style)
    ensures ScanExponent(s, p, st).Exponent? && ScanExponent(s, p, st).binary ==> 1 <= RadixBits(st.radix) <= 4
  {
    hide ScanDecimal, ToDigit;
  }

  lemma OverflowConverts(tmp: nat, st: Style, pos: nat, sig: seq<nat>, kept: nat, extra: bool, e: Exponent, fraction: nat)
    requires Scanned(tmp, st.radix, sig, kept, extra) && e.Exponent? && fraction <= TEXT_MAX && |sig| <= TEXT_MAX
    requires DigitsValue(e.digits, 10) >= 10 * (EXPN_LIMIT + 1)
    requires e.binary ==> 1 <= RadixBits(st.radix) <= 4
    ensures Nearest(Magnitude(Significand(st.radix, Zeros(pos) + sig), st.radix, fraction, ExponentValue(e), e.binary),
                    if e.negative then 0 else INFINITY)
  {
    hide Pow, Significand, Nearest, Magnitude, Scanned, RadixBits;
    ScannedSize(tmp, st.radix, sig, kept, extra);
    SignificandBound(tmp, st.radix, pos, sig, kept, extra);
    HugeExponent(Significand(st.radix, Zeros(pos) + sig), st.radix, fraction, ExponentValue(e), e.binary, |sig|);
  }

  /** The reading of the digits, in the terms of the specification. */
  lemma AllDigits(full: Scan, sigPos: nat, rest: Scan, pos: nat, dot: int)
    requires BehindZeros(full, sigPos, rest) && pos == sigPos + |rest.digits| && dot == rest.dot
    ensures full.digits == Zeros(sigPos) + rest.digits && full.next == rest.next && full.dot == dot
    ensures FractionDigits(full) == if dot < 0 then 0 else pos - dot
  {
  }

  lemma EmptyScan(sig: seq<nat>, radix: nat, kept: nat, extra: bool, v: nat)
    requires 2 <= radix <= 36 && Accumulated(v, 0, 0, radix, sig, kept, extra)
    ensures kept == 0 <==> sig == []
  {
    DigitTables(radix);
  }

  /** A number behind its sign and prefix. */
  method ParseNumber(s: string, p0: nat, st: Style, negative: bool) returns (r: Float, p: nat)
    requires 2 <= st.radix <= 36 && |s| <= TEXT_MAX
    ensures Converts(ReadNumber(s, p0, st, negative), r) && p == ReadNumber(s, p0, st, negative).next
  {
    hide ScanDigits, ScanExponent, Accumulated, BehindZeros, Significand, Magnitude, Nearest, DigitsValue, MarkerAt, AtodMaxDigits;
    FractionNonNegative(s, p0, st, -1, 0);
    ghost var full := ScanDigits(s, p0, st, -1, 0);
    var tmp := new Mpb(DBIGNUM_LEN_MAX);
    var sigPos, dot;
    p, sigPos, dot := SkipZeros(s, p0, st);
    ghost var sig := ScanDigits(s, p, st, dot, sigPos).digits;
    ghost var rest := ScanDigits(s, p, st, dot, sigPos);
    var pos, kept, extra;
    p, pos, dot, kept, extra := ReadDigits(tmp, s, p, st, sigPos, dot);
    EmptyScan(sig, st.radix, kept, extra, tmp.Value());
    AllDigits(full, sigPos, rest, pos, dot);
    ghost var fraction := FractionDigits(full);
    var isZero := kept == 0;
    var expnOffset := 0;
    if !isZero {
      if dot < 0 {
        dot := pos;
      }
      expnOffset := sigPos + kept - dot;
    }
    ghost var q := p;
    var e;
    BinaryOnlyForPowers(s, p, st);
    e, p := ReadExponent(s, p, st);
    if e.Rejected? {
      return NaN, p;
    }
    if !isZero && e.overflow {
      OverflowConverts(tmp.Value(), st, sigPos, sig, kept, extra, ScanExponent(s, q, st), fraction);
      return Float(negative, if e.negative then 0 else INFINITY), p;
    }
    StartOnly(s, q, st);
    if p == st.start {
      return NaN, p;
    }
    if isZero {
      ZeroDigitsConvert(st.radix, sigPos, fraction, ExponentOf(s, q, st), e.binary);
      return Float(negative, 0), p;
    }
    var a := ConvertDigits(tmp, st, kept, extra, e, expnOffset, sigPos, sig, fraction, ExponentOf(s, q, st));
    return Float(negative, a), p;
  }

  ghost function ExponentOf(s: string, p: nat, st: Style): int {
    if ScanExponent(s, p, st).Exponent? then ExponentValue(ScanExponent(s, p, st)) else 0
  }

  lemma StartOnly(s: string, p: nat, st: Style)
    ensures ScanExponent(s, p, st).Exponent? ==> ScanExponent(s, p, st).next > st.start
  {
    hide ToDigit;
  }

  lemma PrefixRadix(s: string, p: nat, radix: nat, flags: Flags)
    requires radix == 0 || 2 <= radix <= 36
    ensures Prefix(s, p, radix, flags).Begin? ==> 2 <= Prefix(s, p, radix, flags).radix <= 36
  {
    hide SkipOctal, ToDigit;
  }

  /** js_atod: sign, prefix, digits and exponent, converted to the nearest float64 (ties to even)
      through the normal, subnormal, underflow and overflow ranges. */
  method JsAtod(s: string, radix0: nat, flags: Flags) returns (r: Float, next: nat)
    requires (radix0 == 0 || 2 <= radix0 <= 36) && |s| <= TEXT_MAX
    ensures Converts(Read(s, radix0, flags), r)
    ensures next == Read(s, radix0, flags).next
  {
    hide ReadNumber, Prefix;
    PrefixRadix(s, AfterSign(s), radix0, flags);
    var negative := At(s, 0) == '-';
    var start := AfterSign(s);
    match Prefix(s, start, radix0, flags)
    case BadPrefix(at) =>
      return NaN, at;
    case Infinite(q) =>
      return Float(negative, INFINITY), q;
    case Begin(p, radix, sep) =>
      r, next := ParseNumber(s, p, Style(start, radix, sep, flags.intOnly), negative);
  }
}
