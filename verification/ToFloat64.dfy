/** round_to_d: a scaled bignum rounded to a float64, and the packing of the result into a pattern. */
module ToFloat64 {
  import opened Arith
  import opened Limbs
  import opened Rounding
  import opened Bignum
  import opened RadixLog
  import opened Powers
  import opened Scaling
  import opened Float64

  /** The pattern js_atod builds from (m, e), where the number is m * 2^(e - 53). */
  function Pack(m: nat, e: int): nat {
    if m == 0 then 0
    else if e > 1024 then INFINITY
    else if e < -1073 then 0
    else if e < -1021 then m / Pow(2, -e - 1021)
    else (e + 1022) * P52 + m % P52
  }

  /** The result of round_to_d is normalised or zero, with only zero bits below 2^-1074. */
  predicate Normalised(m: nat, e: int) {
    m == 0 || (P52 <= m < P53 && e >= -1073 && (e < -1021 ==> m % Pow(2, -e - 1021) == 0))
  }

  /** The precision left at exponent e. */
  function Precision(e: int): int {
    if e < -1021 then 53 - (-1021 - e) else 53
  }

  /** The exponent of the float64 grid at exponent e, in units of 2^-1074. */
  function GridExponent(e: int): (u: int)
    ensures u >= 0
  {
    if e < -1021 then 0 else e + 1021
  }

  /** x measured on the grid of exponent e. */
  ghost function OnGridOf(x: real, e: int): real {
    Scale(InUnits(x), 2, -GridExponent(e))
  }

  /** The last step of round_to_d: the rounded mantissa is normalised. */
  function Normalise(r: nat, e: int): (nat, int) {
    var m := r * Pow(2, 53 - Precision(e));
    if m >= P53 then (m / 2, e + 1) else (m, e)
  }

  lemma TwoTo53()
    ensures Pow(2, 52) == P52 && Pow(2, 53) == P53
  {
    FastPowIsPow(2, 52);
    assert FastPow(2, 52) == P52;
    PowTwo(52);
  }

  /** In the normal range. */
  lemma PackNormal(r: nat, e: int)
    requires -1021 <= e <= 1024 && P52 <= r <= P53
    ensures var (m, e') := Normalise(r, e);
            Normalised(m, e') && Pack(m, e') == GridExponent(e) * P52 + r
  {
    PowTwo(0);
  }

  lemma ExactMultiple(m: nat, p: nat, r: nat)
    requires p > 0 && m == r * p
    ensures m / p == r && m % p == 0
  {
    DivUnique(m, p, r, 0);
  }

  /** A rounded subnormal mantissa that keeps its exponent. */
  lemma PackSubnormalKept(m: nat, e: int, k: int, r: nat)
    requires k >= 1 && e == -1021 - k && e >= -1073 && P52 <= m < P53 && m == r * Pow(2, k)
    ensures Normalised(m, e) && Pack(m, e) == r
  {
    ExactMultiple(m, Pow(2, k), r);
  }

  /** A rounded subnormal mantissa that reaches the next power of two. */
  lemma PackSubnormalRaised(e: int, k: int, r: nat)
    requires k >= 1 && e == -1021 - k && e >= -1074 && P52 == r * Pow(2, k - 1)
    ensures Normalised(P52, e + 1) && Pack(P52, e + 1) == r
  {
    if k >= 2 {
      ExactMultiple(P52, Pow(2, k - 1), r);
    }
  }

  /** In the subnormal range, where k bits are missing. */
  lemma PackSubnormal(r: nat, e: int, k: int)
    requires e < -1021 && k == -1021 - e
    requires k <= 53 ==> r <= Pow(2, 53 - k) && (k < 53 ==> Pow(2, 52 - k) <= r)
    requires k > 53 ==> r == 0
    ensures var (m, e') := Normalise(r, e);
            Normalised(m, e') && Pack(m, e') == r
  {
    hide Pow, Normalised, Pack;
    PackZero(e);
    if r > 0 {
      TwoTo53();
      PowAdd(2, 53 - k, k);
      PowTwo(k - 1);
      var p := Pow(2, k);
      var m := r * p;
      MulMono(r, Pow(2, 53 - k), p, p);
      if k < 53 {
        PowAdd(2, 52 - k, k);
        MulMono(Pow(2, 52 - k), r, p, p);
      } else {
        MulMono(1, r, p, p);
      }
      if m < P53 {
        PackSubnormalKept(m, e, k, r);
      } else {
        CancelFactor(r, Pow(2, 53 - k), p);
        PackSubnormalRaised(e, k, r);
      }
    }
  }

  lemma PackZero(e: int)
    ensures Normalised(0, e) && Pack(0, e) == 0
  {
  }

  lemma CancelFactor(x: nat, y: nat, p: nat)
    requires p > 0 && x <= y && x * p >= y * p
    ensures x == y
  {
    if x < y {
      MulMono(x + 1, y, p, p);
    }
  }

  /** What the bignum knows of x * 2^k: either all of it, or its truncation with a sticky bit
      and bits to spare. */
  ghost predicate Represents(v: nat, x: real, k: int) {
    x > 0.0 && v > 0 &&
    (v as real == Scale(x, 2, k) || (v == Sticky(Scale(x, 2, k)) && v >= Pow(2, 55)))
  }

  /** The leading bit of the bignum is that of the number it represents. */
  lemma LeadingBit(v: nat, x: real, k: int, n: nat)
    requires Represents(v, x, k) && n >= 1 && Pow(2, n - 1) <= v < Pow(2, n)
    ensures Pow(2, n - 1) as real <= Scale(x, 2, k) < Pow(2, n) as real
  {
    hide Pow, Scale;
    if v as real != Scale(x, 2, k) {
      TwoTo55();
      if n < 2 {
        PowMono(2, n, 55);
      }
      PowTwo(n - 2);
    }
  }

  lemma TwoTo55()
    ensures Pow(2, 55) > 2
  {
    PowMono(2, 2, 55);
  }

  /** Bounds by powers move through a scaling. */
  lemma ScaledBounds(y: real, b: nat, lo: nat, hi: nat, s: int)
    requires b > 0 && Pow(b, lo) as real <= y < Pow(b, hi) as real
    ensures RPow(b, lo + s) <= Scale(y, b, s) < RPow(b, hi + s)
  {
    hide Pow, RPow;
    PositivePower(b, lo);
    PositivePower(b, hi);
    RPowAdd(b, lo, s);
    RPowAdd(b, hi, s);
    ScaleMono(RPow(b, lo), y, b, s);
    ScaleMono(y, RPow(b, hi), b, s);
  }

  /** v is the bignum of x * 2^k, n its length in bits. */
  ghost predicate Measured(v: nat, x: real, k: int, n: nat) {
    Represents(v, x, k) && n >= 1 && Pow(2, n - 1) <= v < Pow(2, n)
  }

  /** The grid on which round_to_d rounds, and the size of the number on it. */
  lemma OnItsGrid(v: nat, x: real, k: int, n: nat, e: int, shift: int)
    requires Measured(v, x, k, n) && e == n - k && shift == n - Precision(e)
    ensures OnGridOf(x, e) == Scale(Scale(x, 2, k), 2, -shift)
    ensures RPow(2, Precision(e) - 1) <= OnGridOf(x, e) < RPow(2, Precision(e))
    ensures RPow(2, e - 1) <= x
  {
    hide Pow, RPow, Scale;
    ScaleAdd(x, 2, 1074, -GridExponent(e));
    ScaleAdd(x, 2, k, -shift);
    LeadingBit(v, x, k, n);
    ScaledBounds(Scale(x, 2, k), 2, n - 1, n, -shift);
    ScaledBounds(Scale(x, 2, k), 2, n - 1, n, -k);
    ScaleAdd(x, 2, k, -k);
    ScaleZero(x, 2);
  }

  /** Rounding the bignum rounds the number. */
  lemma RoundsTheNumber(v: nat, x: real, k: int, n: nat, e: int, shift: int)
    requires Measured(v, x, k, n) && e == n - k && shift == n - Precision(e)
    ensures Round(Scale(v as real, 2, -shift), NearestEven) == Round(OnGridOf(x, e), NearestEven)
  {
    hide Pow, RPow, Scale, Round, Sticky, OnGridOf;
    OnItsGrid(v, x, k, n, e, shift);
    if v as real != Scale(x, 2, k) {
      if n < 56 {
        PowMono(2, n, 55);
      }
      StickyRounds(Scale(x, 2, k), shift, NearestEven);
    }
  }

  /** Size of the rounded mantissa. */
  lemma RoundedBounds(z: real, p: int)
    requires RPow(2, p - 1) <= z < RPow(2, p)
    ensures p >= 0 ==> 0 <= Round(z, NearestEven) <= Pow(2, p)
    ensures p >= 1 ==> Pow(2, p - 1) <= Round(z, NearestEven)
    ensures p < 0 ==> Round(z, NearestEven) == 0
  {
    hide Pow, RPow;
    if p >= 0 {
      PositivePower(2, p);
      RoundMono(z, Pow(2, p) as real, NearestEven);
      RoundInt(Pow(2, p), NearestEven);
      RoundMono(0.0, z, NearestEven);
      RoundInt(0, NearestEven);
    }
    if p >= 1 {
      PositivePower(2, p - 1);
      RoundMono(Pow(2, p - 1) as real, z, NearestEven);
      RoundInt(Pow(2, p - 1), NearestEven);
    }
    if p < 0 {
      RPowMono(2, p, -1);
      RPowStep(2, -1);
      RPowZero(2);
    }
  }

  /** The pattern built from the rounded mantissa is the nearest float64. */
  lemma PackedIsNearest(v: nat, x: real, k: int, n: nat, e: int, shift: int, r: int)
    requires Measured(v, x, k, n) && e == n - k && shift == n - Precision(e)
    requires r == Round(Scale(v as real, 2, -shift), NearestEven)
    ensures 0 <= r <= P53
    ensures var (m, e') := Normalise(r, e);
            Normalised(m, e') && Nearest(x, Pack(m, e'))
  {
    hide Pow, RPow, Scale, Round, InUnits, Nearest, Pack, Normalise, Measured;
    OnItsGrid(v, x, k, n, e, shift);
    RoundsTheNumber(v, x, k, n, e, shift);
    RoundedBounds(OnGridOf(x, e), Precision(e));
    TwoTo53();
    PositivePower(2, 52);
    PositivePower(2, 53);
    if Precision(e) >= 0 {
      PowMono(2, Precision(e), 53);
    }
    if e < -1021 {
      RPowMono(2, Precision(e), 53);
      NearestByRounding(x, 0, r);
      PackSubnormal(r, e, -1021 - e);
    } else if e <= 1024 {
      NearestByRounding(x, e + 1021, r);
      PackNormal(r, e);
    } else {
      RPowMono(2, 1024, e - 1);
      NearestOverflow(x);
      PackOverflow(r, e);
    }
  }

  lemma PackOverflow(r: nat, e: int)
    requires e > 1024 && P52 <= r <= P53
    ensures var (m, e') := Normalise(r, e); Normalised(m, e') && Pack(m, e') == INFINITY
  {
    PowTwo(0);
  }

  /** round_to_d: (m, e) with m * 2^(e - 53) the float64 nearest to a * 2^-eOffset. */
  method RoundToD(a: Mpb, eOffset: int, ghost x: real) returns (m: nat, e: int)
    requires a.Valid() && a.Normal() && a.tab.Length >= 3
    requires a.Value() > 0 ==> Represents(a.Value(), x, eOffset)
    modifies a`len, a.tab
    ensures Normalised(m, e)
    ensures old(a.Value()) == 0 ==> m == 0
    ensures old(a.Value()) > 0 ==> Nearest(x, Pack(m, e))
  {
    hide Pow, Represents, Pack, Nearest, Normalise, Round, RoundQuotient, Scale;
    a.NormalByValue();
    OneLimb(a.tab[..1]);
    if a.tab[0] == 0 && a.len == 1 {
      return 0, 0;
    }
    ghost var v := a.Value();
    var t := a.FloorLog2();
    e := t + 1 - eOffset;
    var shift := e + eOffset - Precision(e);
    RoundFits(v, t, shift, a.tab.Length);
    a.ShrRound(shift, NearestEven);
    ShiftIsRound(v, shift, NearestEven, a.Value());
    PackedIsNearest(v, x, eOffset, t + 1, e, shift, a.Value());
    m := a.GetU64();
    var p := Normalise(m, e);
    m, e := p.0, p.1;
  }

  lemma RoundFits(v: nat, t: nat, shift: int, cap: nat)
    requires 0 < v < Pow(2, t + 1) && shift >= t + 1 - 53 && cap >= 3
    ensures shift < 0 ==> v * Pow(2, -shift) < Pow(BASE, cap - 1)
  {
    hide Pow;
    if shift < 0 {
      PowAdd(2, t + 1, -shift);
      PowMono(2, t + 1 - shift, 64);
      StrictScale(v, Pow(2, t + 1), Pow(2, -shift));
      BaseIsPow2();
      PowOfPow(2, 32, 2);
      PowMono(BASE, 2, cap - 1);
    }
  }
}
