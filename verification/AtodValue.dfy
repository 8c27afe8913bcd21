/** js_atod, second part: what the accumulated digits mean, and their conversion. */
module AtodValue {
  import opened Arith
  import opened Limbs
  import opened Rounding
  import opened Bignum
  import opened RadixLog
  import opened Powers
  import opened Scaling
  import opened Float64
  import opened ToFloat64
  import opened Capacity
  import opened DtoaFree
  import opened Digits
  import opened Numeral
  import opened AtodDigits

  // ----- the digits as a number -----

  lemma {:induction false} LeadingZerosOf(pos: nat, sig: seq<nat>)
    requires |sig| > 0 && sig[0] != 0
    ensures LeadingZeros(Zeros(pos) + sig) == pos
  {
    if pos == 0 {
      assert Zeros(0) + sig == sig;
    } else {
      LeadingZerosOf(pos - 1, sig);
      assert (Zeros(pos) + sig)[1..] == Zeros(pos - 1) + sig;
    }
  }

  lemma ZerosCountNothing(pos: nat, ds: seq<nat>, radix: nat)
    ensures DigitsValue(Zeros(pos) + ds, radix) == DigitsValue(ds, radix)
  {
    hide Pow, DigitsValue;
    DigitsAppend(Zeros(pos), ds, radix);
    ZeroDigits(Zeros(pos), radix);
  }

  /** The dropped digits that count: all in a power-of-two radix, none in any other. */
  ghost function Tail(radix: nat, sig: seq<nat>, kept: nat): nat
    requires kept <= |sig|
  {
    if RadixBits(radix) != 0 then DigitsValue(sig[kept..], radix) else 0
  }

  /** The significand in terms of the digits the loop has kept. */
  lemma SignificandOf(radix: nat, pos: nat, sig: seq<nat>, kept: nat)
    requires 2 <= radix <= 36 && kept == Min(|sig|, AtodMaxDigits(radix))
    requires |sig| > 0 && sig[0] != 0
    ensures Significand(radix, Zeros(pos) + sig) ==
            DigitsValue(sig[..kept], radix) * Pow(radix, |sig| - kept) + Tail(radix, sig, kept)
  {
    hide Pow, DigitsValue, AtodMaxDigits, RadixBits, LeadingZeros;
    LeadingZerosOf(pos, sig);
    var all := Zeros(pos) + sig;
    var k := KeptDigits(radix, all);
    if RadixBits(radix) != 0 {
      assert all[..k] == all;
      ZerosCountNothing(pos, sig, radix);
      assert sig == sig[..kept] + sig[kept..];
      DigitsAppend(sig[..kept], sig[kept..], radix);
      PowOne(radix);
    } else {
      assert k == pos + kept;
      assert all[..k] == Zeros(pos) + sig[..kept];
      ZerosCountNothing(pos, sig[..kept], radix);
    }
  }

  lemma NoSignificand(radix: nat, pos: nat)
    requires 2 <= radix <= 36
    ensures Significand(radix, Zeros(pos) + []) == 0
  {
    hide Pow;
    var all := Zeros(pos) + [];
    ZeroDigits(all[..KeptDigits(radix, all)], radix);
  }

  /** The first digit is not zero, so the number has as many digits as it seems. */
  lemma SizeOfDigits(ds: seq<nat>, radix: nat)
    requires |ds| > 0 && ds[0] != 0 && radix > 0 && forall i :: 0 <= i < |ds| ==> ds[i] < radix
    ensures Pow(radix, |ds| - 1) <= DigitsValue(ds, radix) < Pow(radix, |ds|)
  {
    hide Pow, DigitsValue;
    DigitsBelow(ds, radix);
    assert ds == ds[..1] + ds[1..];
    DigitsAppend(ds[..1], ds[1..], radix);
    OneDigit(ds[..1], radix);
    MulGe(Pow(radix, |ds| - 1), 1, ds[0]);
  }

  lemma OneDigit(ds: seq<nat>, radix: nat)
    requires |ds| == 1
    ensures DigitsValue(ds, radix) == ds[0]
  {
    assert ds[..0] == [];
  }

  lemma TailBound(radix: nat, sig: seq<nat>, kept: nat)
    requires 2 <= radix <= 36 && kept <= |sig| && forall i :: 0 <= i < |sig| ==> sig[i] < radix
    ensures Tail(radix, sig, kept) < Pow(radix, |sig| - kept)
    ensures RadixBits(radix) != 0 ==> (Tail(radix, sig, kept) != 0 <==> AnyNonZero(sig[kept..]))
  {
    hide Pow, DigitsValue;
    DigitsBelow(sig[kept..], radix);
    PowPositive(radix, |sig| - kept);
    if AnyNonZero(sig[kept..]) {
      NonZeroDigits(sig[kept..], radix);
    } else {
      ZeroDigits(sig[kept..], radix);
    }
  }

  lemma {:induction false} NonZeroDigits(ds: seq<nat>, radix: nat)
    requires radix > 0 && AnyNonZero(ds)
    ensures DigitsValue(ds, radix) > 0
  {
    var i :| 0 <= i < |ds| && ds[i] != 0;
    var d := ds[..|ds| - 1];
    if i < |ds| - 1 {
      assert d[i] != 0;
      NonZeroDigits(d, radix);
      MulGe(DigitsValue(d, radix), 1, radix);
    }
  }

  // ----- magnitudes -----

  lemma MagnitudeOf(v: nat, k: nat, radix: nat, fraction: nat, exponent: int)
    requires radix > 0
    ensures Magnitude(v * Pow(radix, k), radix, fraction, exponent, false) == Scale(v as real, radix, exponent - (fraction - k))
  {
    hide Pow, Scale;
    ScaleNat(v, radix, k);
    ScaleAdd(v as real, radix, k, exponent - fraction);
  }

  /** In a power-of-two radix every numeral is an integer times a power of two. */
  lemma BinaryMagnitude(n: nat, radix: nat, fraction: nat, exponent: int, binary: bool)
    requires 2 <= radix <= 36 && RadixBits(radix) != 0
    ensures Magnitude(n, radix, fraction, exponent, binary) ==
            Scale(n as real, 2, (if binary then exponent else exponent * RadixBits(radix)) - fraction * RadixBits(radix))
  {
    hide Pow, Scale, RadixBits;
    var b := RadixBits(radix);
    RadixIsPower(radix);
    var f: int := fraction;
    ScaleOfPow(n as real, 2, b, -f, b * -f);
    ScaleOfPow(n as real, 2, b, exponent - fraction, b * (exponent - fraction));
    ScaleAdd(n as real, 2, b * -f, exponent);
    ProductOut(b, fraction, exponent);
  }

  lemma ProductOut(b: int, f: int, e: int)
    ensures b * -f == -(f * b) && b * (e - f) == e * b - f * b
  {
  }

  /** Dropping digits in a power-of-two radix and forcing the lowest bit is a sticky bit. */
  lemma StickyDigits(v: nat, w: nat, n: nat, q: nat, x: real, s: int, u: nat)
    requires w < Pow(2, q) && n == v * Pow(2, q) + w && n > 0 && x == Scale(n as real, 2, s)
    requires u == if w != 0 && v % 2 == 0 then v + 1 else v
    requires w != 0 ==> v >= Pow(2, 55)
    ensures Represents(u, x, -(s + q))
    ensures v as real <= Scale(x, 2, -(s + q)) < (v + 1) as real
  {
    hide Pow, Scale, Sticky, StickyDiv;
    var q': int := q;
    var k := -(s + q');
    var p := Pow(2, q);
    var t := Scale(x, 2, k);
    ScaleAdd(n as real, 2, s, k);
    ScaleAdd(n as real, 2, -q', q);
    ScaleZero(n as real, 2);
    ScaleByPow(t, 2, q);
    StickyDivIsSticky(n, p, t);
    StickyDivOf(n, p, v, w, u);
    ExactOrBetween(n, p, v, w, t);
    ScalePositive(n, s);
  }

  lemma StickyDivOf(n: nat, p: nat, v: nat, w: nat, u: nat)
    requires n == v * p + w && w < p && n > 0
    requires u == if w != 0 && v % 2 == 0 then v + 1 else v
    ensures StickyDiv(n, p) == u
    ensures v == 0 ==> w != 0
    ensures u > 0
  {
    DivUnique(n, p, v, w);
  }

  lemma ScalePositive(n: nat, s: int)
    requires n > 0
    ensures Scale(n as real, 2, s) > 0.0
  {
  }

  lemma ExactOrBetween(n: nat, p: nat, v: nat, w: nat, t: real)
    requires n == v * p + w && w < p && t * p as real == n as real
    ensures v as real <= t < (v + 1) as real
    ensures w == 0 ==> t == v as real
  {
    MulCompare(p as real, v as real, t);
    MulCompare(p as real, t, (v + 1) as real);
    assert ((v + 1) * p) as real == (v + 1) as real * p as real;
    assert (v * p) as real == v as real * p as real;
  }

  // ----- conversion -----

  /** The branch of js_atod for a power-of-two radix. */
  method FromBinary(tmp: Mpb, bits: nat, kept: nat, expn: int, ghost x: real) returns (a: nat)
    requires tmp.Valid() && tmp.Normal() && tmp.tab.Length >= 3 && bits >= 1 && kept >= 1
    requires tmp.Value() > 0 && Represents(tmp.Value(), x, -expn)
    requires RPow(2, (kept - 1) * bits + expn) <= x < RPow(2, kept * bits + expn)
    modifies tmp`len, tmp.tab
    ensures Nearest(x, a)
  {
    hide Pow, RPow, Represents, Nearest, Pack;
    var expn1 := expn + kept * bits;
    assert (kept - 1) * bits == kept * bits - bits;
    if expn1 >= 1024 + bits {
      RPowMono(2, 1024, (kept - 1) * bits + expn);
      NearestOverflow(x);
      return INFINITY;
    } else if expn1 <= -1075 {
      RPowMono(2, kept * bits + expn, -1075);
      PositiveAbove(x, (kept - 1) * bits + expn);
      NearestUnderflow(x);
      return 0;
    }
    var m, e := RoundToD(tmp, -expn, x);
    a := Pack(m, e);
  }

  lemma PositiveAbove(x: real, e: int)
    requires RPow(2, e) <= x
    ensures x >= 0.0
  {
  }

  /** Room for the conversion of the digits in any other radix. */
  lemma AtodRoom(v: nat, radix: nat, kept: nat, expn: int)
    requires 2 <= radix <= 36 && 0 < v < Pow(radix, kept) && Pow(radix, kept) <= Pow(2, 128)
    requires MinExponent(radix) < expn + kept <= MaxExponent(radix)
    ensures OddPart(Radix1(radix)) && MulPowRoom(v, DBIGNUM_LEN_MAX, Radix1(radix), Ctz32(radix), expn, false, 55)
  {
    hide Pow, Radix1, Ctz32, OddPart, MinExponent, MaxExponent;
    RadixParts(radix);
    BufferSize();
    ExponentTables(radix);
    var radix1 := Radix1(radix);
    if radix1 != 1 {
      if expn >= 0 {
        OddPower2(radix, expn);
        PowMono(radix, expn, MaxExponent(radix));
        ProductOfPowers(v, Pow(radix1, expn), 128, 1034, 1664);
      } else {
        var f0: nat := -expn;
        OddPower2(radix, f0);
        PowMono(radix, f0, kept - MinExponent(radix));
        PowAdd(radix, kept, -MinExponent(radix));
        PowAdd(2, 128, 1081);
        MulMono(Pow(radix, kept), Pow(2, 128), Pow(radix, -MinExponent(radix)), Pow(2, 1081));
        PowTwo(1209);
        DivisionRoom(v, radix1, Ctz32(radix), expn, false, 55, 128, 1210);
      }
    }
  }

  lemma OverflowsAt(x: real, radix: nat, e: int)
    requires 2 <= radix <= 36 && e >= MaxExponent(radix) && RPow(radix, e) <= x
    ensures Nearest(x, INFINITY)
  {
    hide Pow, RPow, Nearest, MaxExponent, MinExponent;
    ExponentTables(radix);
    PositivePower(radix, MaxExponent(radix));
    PositivePower(2, 1024);
    RPowMono(radix, MaxExponent(radix), e);
    NearestOverflow(x);
  }

  lemma UnderflowsAt(x: real, radix: nat, e: int)
    requires 2 <= radix <= 36 && e <= MinExponent(radix) && 0.0 <= x <= RPow(radix, e)
    ensures Nearest(x, 0)
  {
    hide Pow, RPow, Nearest, MaxExponent, MinExponent;
    ExponentTables(radix);
    NegatePowers(2, radix, 1075, -MinExponent(radix));
    RPowMono(radix, e, MinExponent(radix));
    NearestUnderflow(x);
  }

  /** The branch of js_atod for any other radix. */
  method FromRadix(tmp: Mpb, radix: nat, kept: nat, expn: int) returns (a: nat)
    requires tmp.Valid() && tmp.Normal() && tmp.tab.Length == DBIGNUM_LEN_MAX
    requires 2 <= radix <= 36 && kept >= 1 && Pow(radix, kept - 1) <= tmp.Value() < Pow(radix, kept) <= Pow(2, 128)
    modifies tmp`len, tmp.tab
    ensures Nearest(Scale(old(tmp.Value()) as real, radix, expn), a)
  {
    hide Pow, RPow, Scale, Nearest, Pack, MaxExponent, MinExponent, Radix1, Ctz32, OddPart, MulPowRoom;
    ghost var v := tmp.Value();
    ghost var x := Scale(v as real, radix, expn);
    PowPositive(radix, kept - 1);
    ScaledBounds(v as real, radix, kept - 1, kept, expn);
    var expn1 := expn + kept;
    if expn1 >= MaxExponent(radix) + 1 {
      OverflowsAt(x, radix, expn1 - 1);
      return INFINITY;
    } else if expn1 <= MinExponent(radix) {
      UnderflowsAt(x, radix, expn1);
      return 0;
    }
    AtodRoom(v, radix, kept, expn);
    RadixParts(radix);
    var m, e := MulPowRoundToD(tmp, Radix1(radix), Ctz32(radix), expn, radix);
    a := Pack(m, e);
  }
}
