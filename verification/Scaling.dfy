/** Scaling a bignum by a power of the radix (mul_pow), exactly or with a sticky bit,
    and the correctly rounded product built on it (mul_pow_round). */
module Scaling {
  import opened Arith
  import opened Limbs
  import opened Reciprocal
  import opened Rounding
  import opened Bignum
  import opened RadixLog
  import opened Powers

  // ----- bit lengths -----

  ghost function BitLen(v: nat): nat {
    if v == 0 then 0 else 1 + BitLen(v / 2)
  }

  lemma {:induction false} BitLenBounds(v: nat)
    requires v > 0
    ensures BitLen(v) >= 1 && Pow(2, BitLen(v) - 1) <= v < Pow(2, BitLen(v))
  {
    if v > 1 {
      BitLenBounds(v / 2);
    }
  }

  lemma BitLenUnique(v: nat, k: nat)
    requires Pow(2, k) <= v < Pow(2, k + 1)
    ensures BitLen(v) == k + 1
  {
    BitLenBounds(v);
    var n := BitLen(v) - 1;
    if n < k {
      PowMono(2, n + 1, k);
    } else if k < n {
      PowMono(2, k + 1, n);
    }
  }

  // ----- the radix as an odd part and a power of two -----

  /** The odd part of the radix. */
  predicate OddPart(radix1: nat) {
    radix1 % 2 == 1 && radix1 <= 35
  }

  lemma OddDigits(radix1: nat, n: nat)
    requires OddPart(radix1) && radix1 != 1 && n <= DigitsPerLimb(radix1)
    ensures 3 <= radix1 <= 35 && 1 <= DigitsPerLimb(radix1) <= 32 && 0 < Pow(radix1, n) < BASE
    ensures Pow(2, 27) <= Pow(radix1, DigitsPerLimb(radix1))
  {
    hide Pow;
    DigitTables(radix1);
    PowMono(radix1, n, DigitsPerLimb(radix1));
    OddPower(radix1, n);
  }

  lemma {:induction false} OddPower(b: nat, n: nat)
    requires b % 2 == 1
    ensures Pow(b, n) % 2 == 1
  {
    if n > 0 {
      OddPower(b, n - 1);
      OddProduct(b / 2, Pow(b, n - 1) / 2);
    }
  }

  lemma OddProduct(x: nat, y: nat)
    ensures (2 * x + 1) * (2 * y + 1) % 2 == 1
  {
    assert (2 * x + 1) * (2 * y + 1) == 2 * (2 * (x * y) + x + y) + 1;
  }

  // ----- multiplication by radix1^f -----

  /** One multiplication by a limb, appending the carry. */
  method MulLimb(a: Mpb, b: Limb)
    requires a.Valid() && a.Normal() && a.Value() > 0 && b > 0
    requires a.Value() * b < Pow(BASE, a.tab.Length)
    modifies a`len, a.tab
    ensures a.Valid() && a.Normal()
    ensures a.Value() == old(a.Value()) * b
  {
    hide Pow;
    a.NormalByValue();
    ghost var v, n := a.Value(), a.len;
    var h := MpMul1(a.tab, a.len, b, 0);
    MulGe(v, 1, b);
    if h != 0 {
      CarryNeedsRoom(Val(a.tab[..a.len]), h, v * b, a.len, a.tab.Length);
      a.AppendLimb(h);
    } else {
      a.NormalByValue();
    }
  }

  lemma CarryNeedsRoom(x: nat, h: nat, y: nat, n: nat, cap: nat)
    requires x + Pow(BASE, n) * h == y < Pow(BASE, cap) && h > 0
    ensures n < cap
  {
    MulGe(Pow(BASE, n), 1, h);
    if cap <= n {
      PowMono(BASE, cap, n);
    }
  }

  /** The branch of mul_pow for f >= 0. */
  method MulPowUp(a: Mpb, radix1: nat, f0: nat)
    requires a.Valid() && a.Normal() && a.Value() > 0
    requires OddPart(radix1) && radix1 != 1
    requires a.Value() * Pow(radix1, f0) < Pow(BASE, a.tab.Length)
    modifies a`len, a.tab
    ensures a.Valid() && a.Normal()
    ensures a.Value() == old(a.Value()) * Pow(radix1, f0) > 0
  {
    hide Pow, DigitsPerLimb, OddPart;
    var d := DigitsPerLimb(radix1);
    ghost var v := a.Value();
    var b: Limb := 0;
    var n0: nat := 0;
    var f: nat := f0;
    PowOne(radix1);
    OddDigits(radix1, 0);
    while f != 0
      invariant a.Valid() && a.Normal()
      invariant f <= f0 && a.Value() == v * Pow(radix1, f0 - f) > 0
      invariant n0 != 0 ==> b == Pow(radix1, n0)
    {
      var n := if f < d then f else d;
      OddDigits(radix1, n);
      if n != n0 {
        b := PowUi(radix1, n);
        n0 := n;
      }
      PowAdd(radix1, f0 - f, n);
      PowMono(radix1, f0 - f + n, f0);
      PartialProduct(v, Pow(radix1, f0 - f), b, Pow(radix1, f0 - f + n), Pow(radix1, f0));
      MulLimb(a, b);
      f := f - n;
    }
  }

  lemma PartialProduct(v: nat, p: nat, b: nat, pb: nat, q: nat)
    requires pb == p * b && pb <= q && b > 0
    ensures (v * p) * b == v * pb <= v * q
    ensures v * p > 0 ==> v * pb > 0
  {
    MulGe(v, pb, q);
    assert (v * p) * b == v * (p * b);
  }

  // ----- division by radix1^f -----

  /** One exact division step of the loop: the normalised divisor is radix1^n * 2^shift. */
  method DivLimb(a: Mpb, b: NormLimb, inv: Limb, shift: nat, ghost d: nat) returns (r: Limb)
    requires a.Valid() && a.Normal() && shift < 32 && d > 0
    requires b == d * Pow(2, shift) && inv == Udiv1NormInit(b)
    modifies a`len, a.tab
    ensures a.Valid() && a.Normal()
    ensures a.Value() == old(a.Value()) / d && r == old(a.Value()) % d
  {
    hide Pow, Val, Udiv1NormInit;
    ghost var v := a.Value();
    r := MpDiv1Norm(a.tab, a.tab, a.len, b, 0, inv, shift, d);
    DivUnique(v, d, a.Value(), r);
    a.Renorm();
  }

  /** The division loop of mul_pow: a chain of truncated divisions by limbs is one truncated
      division by radix1^f0, and some remainder is non-zero exactly when that division is not exact. */
  method DivPow(a: Mpb, radix1: nat, f0: nat) returns (rem: bool)
    requires a.Valid() && a.Normal()
    requires OddPart(radix1) && radix1 != 1
    modifies a`len, a.tab
    ensures a.Valid() && a.Normal()
    ensures a.Value() == old(a.Value()) / Pow(radix1, f0)
    ensures rem <==> old(a.Value()) % Pow(radix1, f0) != 0
  {
    hide Pow, DigitsPerLimb, OddPart, Udiv1NormInit;
    var d := DigitsPerLimb(radix1);
    ghost var v := a.Value();
    var b: NormLimb, inv: Limb, shift: nat := 0x8000_0000, 0, 0;
    var n0: nat := 0;
    var f: nat := f0;
    rem := false;
    PowOne(radix1);
    OddDigits(radix1, 0);
    while f != 0
      invariant a.Valid() && a.Normal()
      invariant f <= f0 && a.Value() == v / Pow(radix1, f0 - f)
      invariant rem <==> v % Pow(radix1, f0 - f) != 0
      invariant n0 != 0 ==> shift < 32 && b == Pow(radix1, n0) * Pow(2, shift) && inv == Udiv1NormInit(b)
    {
      var n := if f < d then f else d;
      OddDigits(radix1, n);
      if n != n0 {
        b, inv, shift := PowUiInv(radix1, n);
        n0 := n;
      }
      PowAdd(radix1, f0 - f, n);
      NestedDivision(v, Pow(radix1, f0 - f), Pow(radix1, n));
      var r := DivLimb(a, b, inv, shift, Pow(radix1, n));
      rem := rem || r != 0;
      f := f - n;
    }
  }

  /** Truncated quotient whose lowest bit is set when something was dropped. */
  ghost function StickyDiv(x: nat, d: nat): nat
    requires d > 0
  {
    if x % d != 0 && x / d % 2 == 0 then x / d + 1 else x / d
  }

  /** tab[0] |= sticky */
  method SetLowBit(a: Mpb, sticky: bool)
    requires a.Valid() && a.Normal()
    modifies a.tab
    ensures a.Valid() && a.Normal()
    ensures a.Value() == if sticky && old(a.Value()) % 2 == 0 then old(a.Value()) + 1 else old(a.Value())
  {
    hide Val;
    LowLimb(a.tab[..a.len], 0);
    if sticky && a.tab[0] % 2 == 0 {
      ghost var t := a.tab[..a.len];
      LowLimb(t, a.tab[0] + 1);
      a.tab[0] := a.tab[0] + 1;
      assert a.tab[..a.len] == t[0 := a.tab[0]];
    }
  }

  lemma LowLimb(s: seq<Limb>, x: Limb)
    requires |s| > 0
    ensures Val(s) % 2 == s[0] % 2
    ensures Val(s[0 := x]) == Val(s) - s[0] + x
  {
    assert s[0 := x][1..] == s[1..];
  }

  /** The branch of mul_pow for f < 0, with f0 = -f and the bits added beforehand. */
  method MulPowDown(a: Mpb, radix1: nat, f0: nat, bits: int)
    requires a.Valid() && a.Normal() && a.Value() > 0
    requires OddPart(radix1) && radix1 != 1 && bits > 0 && a.RoomFor(bits)
    modifies a`len, a.tab
    ensures a.Valid() && a.Normal()
    ensures Pow(radix1, f0) > 0 && a.Value() == StickyDiv(old(a.Value()) * Pow(2, bits), Pow(radix1, f0))
  {
    hide Pow, OddPart, RoundQuotient;
    OddDigits(radix1, 0);
    ghost var v := a.Value();
    a.ShrRound(-bits, Truncate);
    assert a.Value() == v * Pow(2, bits);
    var rem := DivPow(a, radix1, f0);
    SetLowBit(a, rem);
  }

  // ----- mul_pow -----

  /** The C code's bound for the number of limbs a division by radix1^f0 can remove. */
  function LimbBound(radix1: nat, f0: nat): (l: nat)
    requires OddPart(radix1) && radix1 != 1
  {
    OddDigits(radix1, 0);
    CeilDivide(f0, DigitsPerLimb(radix1))
  }

  function CeilDivide(f: nat, d: nat): (l: nat)
    requires d > 0
    ensures f <= d * l < f + d
  {
    (f + d - 1) / d
  }

  lemma LimbBoundSuffices(radix1: nat, f0: nat)
    requires OddPart(radix1) && radix1 != 1
    ensures Pow(radix1, f0) <= Pow(2, 32 * LimbBound(radix1, f0))
  {
    hide Pow;
    var d, l := DigitsPerLimb(radix1), LimbBound(radix1, f0);
    OddDigits(radix1, d);
    PowMono(radix1, f0, d * l);
    PowOfPow(radix1, d, l);
    PowBaseMono(Pow(radix1, d), BASE, l);
    BaseIsPow2();
    PowOfPow(2, 32, l);
  }

  /** The extra low-order bits asked for before the divisions. */
  ghost function ExtraBits(v: nat, radix1: nat, radixShift: nat, f0: nat, isInt: bool, e: int): nat
    requires OddPart(radix1) && radix1 != 1
  {
    var x := if isInt then 2 + e - (f0 * radixShift + 32 * LimbBound(radix1, f0)) else e - (BitLen(v) - 1);
    if x > 0 then x else 0
  }

  /** The bits the number grows by before the divisions. */
  ghost function GrowBits(v: nat, radix1: nat, radixShift: nat, f0: nat, isInt: bool, e: int): nat
    requires OddPart(radix1) && radix1 != 1
  {
    32 * LimbBound(radix1, f0) + ExtraBits(v, radix1, radixShift, f0, isInt, e)
  }

  /** The buffer is large enough for every intermediate number and scratch limb. */
  ghost predicate MulPowRoom(v: nat, cap: nat, radix1: nat, radixShift: nat, f: int, isInt: bool, e: int)
    requires OddPart(radix1) && cap >= 1
  {
    radix1 == 1 ||
    if f >= 0 then v * Pow(radix1, f) < Pow(BASE, cap)
    else v * Pow(2, GrowBits(v, radix1, radixShift, -f, isInt, e)) < Pow(BASE, cap - 1)
  }

  /** v * (radix1 * 2^radixShift)^f * 2^k */
  ghost function Scaled(v: nat, radix1: nat, radixShift: nat, f: int, k: int): real
    requires radix1 > 0
  {
    Scale(Scale(v as real, radix1, f), 2, radixShift * f + k)
  }

  lemma StickyDivIsSticky(x: nat, d: nat, t: real)
    requires d > 0 && t * d as real == x as real
    ensures StickyDiv(x, d) == Sticky(t)
  {
    var q, r := x / d, x % d;
    assert x == q * d + r;
    var f := t - q as real;
    assert f * d as real == r as real;
    FractionBounds(f, d as real, r as real);
    MulCompare(d as real, f, 0.0);
  }

  lemma QuotientIsScaled(v: nat, radix1: nat, f0: int, bits: int)
    requires radix1 > 0 && f0 >= 0 && bits >= 0
    ensures Scale(Scale(v as real, radix1, -f0), 2, bits) * Pow(radix1, f0) as real == (v * Pow(2, bits)) as real
  {
    hide Pow, RPow, Scale;
    var t := Scale(Scale(v as real, radix1, -f0), 2, bits);
    ScaleSwap(v as real, radix1, -f0, 2, bits);
    var y := Scale(v as real, 2, bits);
    ScaleNat(v, 2, bits);
    ScaleAdd(y, radix1, -f0, f0);
    ScaleZero(y, radix1);
    ScaleByPow(t, radix1, f0);
  }

  lemma ScaleByPow(t: real, b: nat, f: nat)
    requires b > 0
    ensures Scale(t, b, f) == t * Pow(b, f) as real
  {
  }

  lemma QuotientLarge(v: nat, w: nat, extra: nat, l: nat, d: nat, e: nat)
    requires v > 0 && 0 < d <= Pow(2, 32 * l)
    requires w == v * Pow(2, 32 * l + extra)
    requires e <= BitLen(v) - 1 + extra
    ensures StickyDiv(w, d) >= Pow(2, e)
  {
    hide Pow, BitLen;
    BitLenBounds(v);
    PowMono(2, e, BitLen(v) - 1 + extra);
    PowAdd(2, BitLen(v) - 1, extra);
    MulMono(Pow(2, BitLen(v) - 1), v, Pow(2, extra), Pow(2, extra));
    PowAdd(2, 32 * l, extra);
    var y := v * Pow(2, extra);
    Reassociate(v, Pow(2, 32 * l + extra), Pow(2, 32 * l), Pow(2, extra));
    MulGe(y, d, Pow(2, 32 * l));
    QuotientAtLeast(w, d, y);
  }

  lemma QuotientAtLeast(w: nat, d: nat, y: nat)
    requires d > 0 && y * d <= w
    ensures w / d >= y
  {
    if w / d < y {
      MulGe(d, w / d + 1, y);
    }
  }

  lemma DownIsSticky(v: nat, radix1: nat, radixShift: nat, f: int, k: int, grow: nat)
    requires radix1 > 0 && f < 0 && k == -f * radixShift + grow
    ensures Pow(radix1, -f) > 0
    ensures StickyDiv(v * Pow(2, grow), Pow(radix1, -f)) == Sticky(Scaled(v, radix1, radixShift, f, k))
  {
    hide Pow, Scale, Sticky, StickyDiv;
    assert radixShift * f + k == grow by {
      assert -f * radixShift == -(radixShift * f);
    }
    QuotientIsScaled(v, radix1, -f, grow);
    StickyDivIsSticky(v * Pow(2, grow), Pow(radix1, -f), Scaled(v, radix1, radixShift, f, k));
  }

  lemma UpIsExact(v: nat, radix1: nat, radixShift: nat, f: int, k: int)
    requires radix1 > 0 && (f >= 0 || radix1 == 1) && k == -f * radixShift
    ensures (if radix1 == 1 then v else v * Pow(radix1, f)) as real == Scaled(v, radix1, radixShift, f, k)
  {
    hide Pow, Scale;
    assert radixShift * f + k == 0 by {
      assert -f * radixShift == -(radixShift * f);
    }
    ScaleZero(Scale(v as real, radix1, f), 2);
    if radix1 == 1 {
      ScaleOne(v as real, f);
    } else {
      ScaleNat(v, radix1, f);
    }
  }

  /** The branch of mul_pow that divides. */
  method MulPowNegative(a: Mpb, radix1: nat, radixShift: nat, f: int, isInt: bool, e: int) returns (eOffset: int)
    requires a.Valid() && a.Normal() && a.Value() > 0
    requires OddPart(radix1) && radix1 != 1 && f < 0 && (!isInt ==> e >= 0)
    requires MulPowRoom(a.Value(), a.tab.Length, radix1, radixShift, f, isInt, e)
    modifies a`len, a.tab
    ensures a.Valid() && a.Normal()
    ensures a.Value() == Sticky(Scaled(old(a.Value()), radix1, radixShift, f, eOffset))
    ensures isInt ==> eOffset >= e + 2
    ensures !isInt ==> a.Value() >= Pow(2, e)
  {
    hide Pow, Scaled, Sticky, StickyDiv, BitLen, OddPart, LimbBound;
    ghost var v := a.Value();
    var f0: nat := -f;
    var l := LimbBound(radix1, f0);
    LimbBoundPositive(radix1, f0);
    eOffset := f0 * radixShift + 32 * l;
    var extraBits: int;
    if !isInt {
      var t := a.FloorLog2();
      BitLenUnique(v, t);
      extraBits := if e - t > 0 then e - t else 0;
    } else {
      extraBits := if 2 + e - eOffset > 0 then 2 + e - eOffset else 0;
    }
    eOffset := eOffset + extraBits;
    ghost var grow := GrowBits(v, radix1, radixShift, f0, isInt, e);
    assert grow == 32 * l + extraBits;
    OddDigits(radix1, 0);
    MulPowDown(a, radix1, f0, 32 * l + extraBits);
    DownIsSticky(v, radix1, radixShift, f, eOffset, grow);
    if !isInt {
      LimbBoundSuffices(radix1, f0);
      QuotientLarge(v, v * Pow(2, grow), extraBits, l, Pow(radix1, f0), e);
    }
  }

  /** mul_pow: scales a by radix^f, up to the power of two 2^-eOffset that it returns.
      For f >= 0 or a power-of-two radix the result is exact; otherwise it is truncated
      and carries a sticky bit. */
  method MulPow(a: Mpb, radix1: nat, radixShift: nat, f: int, isInt: bool, e: int) returns (eOffset: int)
    requires a.Valid() && a.Normal() && a.Value() > 0
    requires OddPart(radix1) && (!isInt ==> e >= 0)
    requires MulPowRoom(a.Value(), a.tab.Length, radix1, radixShift, f, isInt, e)
    modifies a`len, a.tab
    ensures a.Valid() && a.Normal()
    ensures f >= 0 || radix1 == 1 ==>
      && eOffset == -f * radixShift
      && a.Value() == (if radix1 == 1 then old(a.Value()) else old(a.Value()) * Pow(radix1, f)) > 0
      && a.Value() as real == Scaled(old(a.Value()), radix1, radixShift, f, eOffset)
    ensures f < 0 && radix1 != 1 ==>
      && a.Value() == Sticky(Scaled(old(a.Value()), radix1, radixShift, f, eOffset))
      && (isInt ==> eOffset >= e + 2)
      && (!isInt ==> a.Value() >= Pow(2, e))
  {
    hide Pow, Scaled, Sticky;
    ghost var v := a.Value();
    eOffset := -f * radixShift;
    if radix1 != 1 && f < 0 {
      eOffset := MulPowNegative(a, radix1, radixShift, f, isInt, e);
    } else {
      UpIsExact(v, radix1, radixShift, f, eOffset);
      if radix1 != 1 {
        MulPowUp(a, radix1, f);
      }
    }
  }

  lemma LimbBoundPositive(radix1: nat, f0: nat)
    requires OddPart(radix1) && radix1 != 1 && f0 > 0
    ensures LimbBound(radix1, f0) > 0
  {
    hide DigitsPerLimb, OddPart, CeilDivide;
    OddDigits(radix1, 0);
  }

  lemma ScaleOne(x: real, f: int)
    ensures Scale(x, 1, f) == x
  {
    PowOfOne(if f >= 0 then f else -f);
  }

  lemma {:induction false} PowOfOne(n: nat)
    ensures Pow(1, n) == 1
  {
    if n > 0 {
      PowOfOne(n - 1);
    }
  }

  // ----- mul_pow_round -----

  /** m * radix^f * 2^e */
  ghost function Number(m: nat, radix: nat, f: int, e: int): real
    requires radix > 0
  {
    Scale(Scale(m as real, radix, f), 2, e)
  }

  lemma ScaledIsNumber(v: nat, radix1: nat, radixShift: nat, f: int, k: int, radix: nat)
    requires radix1 > 0 && radix == radix1 * Pow(2, radixShift)
    ensures radix > 0 && Scaled(v, radix1, radixShift, f, k) == Number(v, radix, f, k)
  {
    hide Pow, Scale;
    ScaleProduct(v as real, radix1, Pow(2, radixShift), f);
    var x := Scale(v as real, radix1, f);
    ScaleOfPow(x, 2, radixShift, f, radixShift * f);
    ScaleAdd(x, 2, radixShift * f, k);
  }

  /** What mpb_shr_round leaves is the rounded quotient, as a real. */
  lemma ShiftIsRound(v: nat, shift: int, mode: Mode, w: nat)
    requires shift >= 0 ==> w == RoundQuotient(v, true, Pow(2, shift), mode)
    requires shift < 0 ==> w == v * Pow(2, -shift)
    ensures w == Round(Scale(v as real, 2, -shift), mode)
  {
    if shift > 0 {
      PositiveShift(v, shift, mode);
    } else if shift == 0 {
      ScaleZero(v as real, 2);
      RoundInt(v, mode);
    } else {
      ScaleNat(v, 2, -shift);
      RoundInt(w, mode);
    }
  }

  lemma PositiveShift(v: nat, shift: int, mode: Mode)
    requires shift > 0
    ensures RoundQuotient(v, true, Pow(2, shift), mode) == Round(Scale(v as real, 2, -shift), mode)
  {
    hide Pow, Scale, RoundQuotient, Round;
    PowDouble(shift - 1);
    ScaleInverse(v as real, shift);
    RoundQuotientIsRound(v as real, Scale(v as real, 2, -shift), Pow(2, shift), mode);
  }

  /** Room for the exact product and for the left shift that may follow it. */
  ghost predicate RoundRoom(m: nat, cap: nat, e: int, radix1: nat, radixShift: nat, f: int)
    requires OddPart(radix1) && cap >= 1
  {
    && MulPowRoom(m, cap, radix1, radixShift, f, true, e)
    && ((f >= 0 || radix1 == 1) && e + f * radixShift > 0 ==>
        (if radix1 == 1 then m else m * Pow(radix1, f)) * Pow(2, e + f * radixShift) < Pow(BASE, cap - 1))
  }

  /** mul_pow_round: tmp = round(m * 2^e * radix^f), exactly, in every rounding mode. */
  method MulPowRound(tmp: Mpb, m: nat, e: int, radix1: nat, radixShift: nat, f: int, mode: Mode, ghost radix: nat)
    requires 0 < m < DBASE && tmp.tab.Length >= 2
    requires OddPart(radix1) && radix == radix1 * Pow(2, radixShift)
    requires RoundRoom(m, tmp.tab.Length, e, radix1, radixShift, f)
    modifies tmp`len, tmp.tab
    ensures tmp.Valid() && tmp.Normal()
    ensures radix > 0 && tmp.Value() == Round(Number(m, radix, f, e), mode)
  {
    hide Pow, Scaled, Sticky, Round, Number, Scale, OddPart, RoundQuotient, MulPowRoom;
    tmp.SetU64(m);
    OddPositive(radix1);
    var eOffset := MulPow(tmp, radix1, radixShift, f, true, e);
    ScaledIsNumber(m, radix1, radixShift, f, eOffset, radix);
    NumberShift(m, radix, f, eOffset, e);
    ghost var v := tmp.Value();
    tmp.ShrRound(-e + eOffset, mode);
    ShiftIsRound(v, -e + eOffset, mode, tmp.Value());
    if f < 0 && radix1 != 1 {
      NumberPositive(m, radix, f, eOffset);
      StickyRounds(Number(m, radix, f, eOffset), -e + eOffset, mode);
    }
  }

  lemma OddPositive(radix1: nat)
    requires OddPart(radix1)
    ensures radix1 > 0
  {
  }

  lemma NumberPositive(m: nat, radix: nat, f: int, e: int)
    requires radix > 0
    ensures Number(m, radix, f, e) >= 0.0
    ensures m > 0 ==> Number(m, radix, f, e) > 0.0
  {
  }

  lemma NumberShift(m: nat, radix: nat, f: int, k: int, e: int)
    requires radix > 0
    ensures Scale(Number(m, radix, f, k), 2, -(-e + k)) == Number(m, radix, f, e)
  {
    hide Scale;
    ScaleAdd(Scale(m as real, radix, f), 2, k, e - k);
  }
}
