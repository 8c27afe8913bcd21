/** Real powers with signed exponents, and rounding of non-negative reals. */
module Rounding {
  import opened Arith

  /** b^e for an exponent of either sign. */
  ghost function RPow(b: nat, e: int): (r: real)
    requires b > 0
    ensures r > 0.0
  {
    if e >= 0 then Pow(b, e) as real else 1.0 / (Pow(b, -e) as real)
  }

  lemma RPowStep(b: nat, e: int)
    requires b > 0
    ensures RPow(b, e + 1) == b as real * RPow(b, e)
  {
    if e < 0 {
      var p := Pow(b, -e) as real;
      var p' := Pow(b, -e - 1) as real;
      assert p == b as real * p';
      assert RPow(b, e) * p == 1.0;
      assert RPow(b, e + 1) * p' == 1.0;
      assert (b as real * RPow(b, e)) * p' == 1.0;
      CancelRight(b as real * RPow(b, e), RPow(b, e + 1), p');
    }
  }

  lemma CancelRight(x: real, y: real, c: real)
    requires x * c == y * c && c != 0.0
    ensures x == y
  {
  }

  lemma MulSwap(a: real, b: real, c: real)
    ensures a * (b * c) == b * (a * c)
  {
  }

  lemma {:induction false} RPowAdd(b: nat, e: int, f: int)
    requires b > 0
    ensures RPow(b, e + f) == RPow(b, e) * RPow(b, f)
    decreases if f < 0 then -f else f
  {
    hide RPow;
    var c := b as real;
    if f > 0 {
      RPowAdd(b, e, f - 1);
      RPowStep(b, e + f - 1);
      RPowStep(b, f - 1);
      MulSwap(RPow(b, e), c, RPow(b, f - 1));
    } else if f < 0 {
      RPowAdd(b, e, f + 1);
      RPowStep(b, e + f);
      RPowStep(b, f);
      MulSwap(RPow(b, e), c, RPow(b, f));
      CancelLeft(c, RPow(b, e + f), RPow(b, e) * RPow(b, f));
    } else {
      RPowZero(b);
    }
  }

  lemma CancelLeft(c: real, x: real, y: real)
    requires c * x == c * y && c != 0.0
    ensures x == y
  {
  }

  lemma RPowZero(b: nat)
    requires b > 0
    ensures RPow(b, 0) == 1.0
  {
  }

  lemma RPowInverse(b: nat, e: int)
    requires b > 0
    ensures RPow(b, e) * RPow(b, -e) == 1.0
  {
    RPowAdd(b, e, -e);
    RPowZero(b);
  }

  lemma RPowGeOne(b: nat, e: int)
    requires b > 0 && e >= 0
    ensures RPow(b, e) >= 1.0
  {
  }

  lemma RPowMono(b: nat, e: int, f: int)
    requires b > 0 && e <= f
    ensures RPow(b, e) <= RPow(b, f)
  {
    hide RPow;
    RPowAdd(b, e, f - e);
    RPowGeOne(b, f - e);
    MulGeReal(RPow(b, e), 1.0, RPow(b, f - e));
  }

  lemma MulGeReal(a: real, c: real, d: real)
    requires 0.0 <= a && c <= d
    ensures a * c <= a * d
  {
  }

  lemma MulGtReal(a: real, c: real, d: real)
    requires 0.0 < a && c < d
    ensures a * c < a * d
  {
  }

  lemma MulCompare(d: real, f: real, g: real)
    requires d > 0.0
    ensures f < g <==> f * d < g * d
    ensures f == g <==> f * d == g * d
  {
    if f < g {
      MulGtReal(d, f, g);
    } else if g < f {
      MulGtReal(d, g, f);
    }
  }

  lemma {:induction false} RPowProduct(a: nat, b: nat, e: int)
    requires a > 0 && b > 0
    ensures a * b > 0
    ensures RPow(a * b, e) == RPow(a, e) * RPow(b, e)
  {
    assert a * b > 0 by { MulGe(a, 1, b); }
    if e >= 0 {
      PowOfProduct(a, b, e);
    } else {
      PowOfProduct(a, b, -e);
      RPowInverse(a * b, e);
      RPowInverse(a, e);
      RPowInverse(b, e);
      var x, y := RPow(a, -e), RPow(b, -e);
      assert (RPow(a, e) * RPow(b, e)) * (x * y) == (RPow(a, e) * x) * (RPow(b, e) * y);
      CancelRight(RPow(a * b, e), RPow(a, e) * RPow(b, e), x * y);
    }
  }

  lemma PositivePower(b: nat, e: nat)
    requires b > 0
    ensures RPow(b, e) == Pow(b, e) as real
  {
  }

  lemma RPowOfPow(b: nat, k: nat, e: int, ke: int)
    requires b > 0 && ke == k * e
    ensures RPow(Pow(b, k), e) == RPow(b, ke)
  {
    hide Pow, RPow;
    if e >= 0 {
      NatPowOfPow(b, k, e, ke);
    } else {
      Negated(k, e);
      NatPowOfPow(b, k, -e, -ke);
      SameInverse(Pow(b, k), e, b, ke);
    }
  }

  lemma Negated(k: int, e: int)
    ensures k * -e == -(k * e)
  {
  }

  lemma NatPowOfPow(b: nat, k: nat, e: nat, ke: nat)
    requires b > 0 && ke == k * e
    ensures RPow(Pow(b, k), e) == RPow(b, ke)
  {
    hide Pow, RPow;
    PowOfPow(b, k, e);
    PositivePower(Pow(b, k), e);
    PositivePower(b, ke);
  }

  lemma SameInverse(a: nat, e: int, b: nat, f: int)
    requires a > 0 && b > 0 && RPow(a, -e) == RPow(b, -f)
    ensures RPow(a, e) == RPow(b, f)
  {
    hide RPow;
    RPowInverse(a, e);
    RPowInverse(b, f);
    CancelRight(RPow(a, e), RPow(b, f), RPow(b, -f));
  }

  // ----- scaling -----

  /** x * b^e. Kept as a function symbol: products of reals are matched badly
      by the solver, applications of a function are matched well. */
  ghost function Scale(x: real, b: nat, e: int): (r: real)
    requires b > 0
    ensures x > 0.0 ==> r > 0.0
    ensures x >= 0.0 ==> r >= 0.0
  {
    x * RPow(b, e)
  }

  lemma ScaleZero(x: real, b: nat)
    requires b > 0
    ensures Scale(x, b, 0) == x
  {
  }

  lemma ScaleAdd(x: real, b: nat, e: int, f: int)
    requires b > 0
    ensures Scale(Scale(x, b, e), b, f) == Scale(x, b, e + f)
  {
    hide RPow;
    RPowAdd(b, e, f);
    assert (x * RPow(b, e)) * RPow(b, f) == x * (RPow(b, e) * RPow(b, f));
  }

  lemma ScaleSwap(x: real, b: nat, e: int, c: nat, f: int)
    requires b > 0 && c > 0
    ensures Scale(Scale(x, b, e), c, f) == Scale(Scale(x, c, f), b, e)
  {
    hide RPow;
    assert (x * RPow(b, e)) * RPow(c, f) == (x * RPow(c, f)) * RPow(b, e);
  }

  lemma ScaleMono(x: real, y: real, b: nat, e: int)
    requires b > 0
    ensures x <= y <==> Scale(x, b, e) <= Scale(y, b, e)
    ensures x < y <==> Scale(x, b, e) < Scale(y, b, e)
  {
    hide RPow;
    MulCompare(RPow(b, e), x, y);
  }

  lemma ScaleExpMono(x: real, b: nat, e: int, f: int)
    requires x >= 0.0 && b > 0 && e <= f
    ensures Scale(x, b, e) <= Scale(x, b, f)
  {
    hide RPow;
    RPowMono(b, e, f);
    MulGeReal(x, RPow(b, e), RPow(b, f));
  }

  lemma ScaleProduct(x: real, a: nat, b: nat, e: int)
    requires a > 0 && b > 0
    ensures a * b > 0
    ensures Scale(x, a * b, e) == Scale(Scale(x, a, e), b, e)
  {
    RPowProduct(a, b, e);
    hide RPow;
    assert x * (RPow(a, e) * RPow(b, e)) == (x * RPow(a, e)) * RPow(b, e);
  }

  lemma ScaleOfPow(x: real, b: nat, k: nat, e: int, ke: int)
    requires b > 0 && ke == k * e
    ensures Scale(x, Pow(b, k), e) == Scale(x, b, ke)
  {
    hide Scale;
    RPowOfPow(b, k, e, ke);
    ScaleSame(x, Pow(b, k), e, b, ke);
  }

  lemma ScaleSame(x: real, b: nat, e: int, c: nat, f: int)
    requires b > 0 && c > 0 && RPow(b, e) == RPow(c, f)
    ensures Scale(x, b, e) == Scale(x, c, f)
  {
  }

  lemma ScaleSum(x: real, y: real, b: nat, e: int)
    requires b > 0
    ensures Scale(x + y, b, e) == Scale(x, b, e) + Scale(y, b, e)
    ensures Scale(x - y, b, e) == Scale(x, b, e) - Scale(y, b, e)
  {
    hide RPow;
  }

  lemma ScaleNat(n: nat, b: nat, e: nat)
    requires b > 0
    ensures Scale(n as real, b, e) == (n * Pow(b, e)) as real
  {
    hide Pow;
    assert RPow(b, e) == Pow(b, e) as real;
  }

  // ----- rounding -----

  datatype Mode = NearestEven | NearestAway | Truncate

  ghost function Frac(x: real): (r: real)
    ensures 0.0 <= r < 1.0
  {
    x - x.Floor as real
  }

  /** x rounded to an integer. */
  ghost function Round(x: real, mode: Mode): int {
    var q := x.Floor;
    match mode
    case Truncate => q
    case NearestAway => if Frac(x) >= 0.5 then q + 1 else q
    case NearestEven => if Frac(x) > 0.5 || (Frac(x) == 0.5 && q % 2 == 1) then q + 1 else q
  }

  ghost function Abs(x: real): real {
    if x < 0.0 then -x else x
  }

  /** `Round` is what IEEE 754 asks for: no integer is closer, and between two
      equally close ones the mode decides. */
  lemma RoundIsNearest(x: real, k: int)
    requires x >= 0.0
    ensures forall mode :: mode != Truncate ==> Abs(x - Round(x, mode) as real) <= Abs(x - k as real)
    ensures k != Round(x, NearestEven) && Abs(x - Round(x, NearestEven) as real) == Abs(x - k as real)
            ==> Round(x, NearestEven) % 2 == 0
    ensures k != Round(x, NearestAway) && Abs(x - Round(x, NearestAway) as real) == Abs(x - k as real)
            ==> k < Round(x, NearestAway)
    ensures Round(x, Truncate) as real <= x
    ensures k as real <= x ==> k <= Round(x, Truncate)
  {
    if k <= x.Floor {
      assert k as real <= x.Floor as real;
    } else {
      assert k as real >= x.Floor as real + 1.0;
    }
  }

  lemma FloorUnique(x: real, q: int)
    requires q as real <= x < q as real + 1.0
    ensures x.Floor == q
  {
  }

  lemma RoundMono(x: real, y: real, mode: Mode)
    requires x <= y
    ensures Round(x, mode) <= Round(y, mode)
  {
  }

  lemma RoundInt(k: int, mode: Mode)
    ensures Round(k as real, mode) == k
  {
  }

  /** Rounding of n/d where n = q or, when `exact` is false, something strictly
      between q and q + 1. */
  function RoundQuotient(q: nat, exact: bool, d: nat, mode: Mode): nat
    requires d > 0
  {
    var a, b := q / d, q % d;
    match mode
    case Truncate => a
    case NearestAway => if 2 * b >= d then a + 1 else a
    case NearestEven => if 2 * b > d || (2 * b == d && (!exact || a % 2 == 1)) then a + 1 else a
  }

  lemma RoundQuotientIsRound(t: real, x: real, d: nat, mode: Mode)
    requires t >= 0.0 && d > 0 && d % 2 == 0
    requires x * d as real == t
    ensures RoundQuotient(t.Floor, t == t.Floor as real, d, mode) == Round(x, mode)
  {
    var q := t.Floor;
    var a, b := q / d, q % d;
    assert q == a * d + b;
    var dr := d as real;
    assert t == a as real * dr + (b as real + Frac(t));
    assert b as real + 1.0 <= dr;
    var f := x - a as real;
    assert f * dr == b as real + Frac(t);
    FractionBounds(f, dr, b as real + Frac(t));
    FloorUnique(x, a);
    assert Frac(x) == f;
    var h := d / 2;
    assert b < h ==> b as real + 1.0 <= h as real;
  }

  /** f = n/d compared with 0, 1/2 and 1. */
  lemma FractionBounds(f: real, d: real, n: real)
    requires d > 0.0 && f * d == n && 0.0 <= n < d
    ensures 0.0 <= f < 1.0
    ensures f < 0.5 <==> 2.0 * n < d
    ensures f == 0.5 <==> 2.0 * n == d
  {
    HalfCompare(f, d, n);
    MulCompare(d, f, 0.0);
    MulCompare(d, f, 1.0);
  }

  lemma HalfCompare(f: real, d: real, n: real)
    requires d > 0.0 && f * d == n
    ensures f < 0.5 <==> n < d * 0.5
    ensures f == 0.5 <==> n == d * 0.5
  {
    MulCompare(d, f, 0.5);
  }

  /** The truncation of t with its lowest bit forced to 1 when t is not an integer:
      a sticky bit. */
  ghost function Sticky(t: real): int {
    var q := t.Floor;
    if t == q as real || q % 2 == 1 then q else q + 1
  }

  lemma StickyQuotient(q: nat, exact: bool, d: nat, mode: Mode)
    requires d > 0 && d % 4 == 0
    ensures RoundQuotient(if exact || q % 2 == 1 then q else q + 1, true, d, mode) == RoundQuotient(q, exact, d, mode)
  {
    if !exact && q % 2 == 0 {
      EvenRemainder(q, d);
      DivUnique(q + 1, d, q / d, q % d + 1);
    } else if !exact {
      EvenRemainder(q, d);
    }
  }

  lemma EvenRemainder(q: nat, d: nat)
    requires d > 0 && d % 2 == 0
    ensures q % d % 2 == q % 2
  {
    assert q == (q / d) * d + q % d;
    assert d == 2 * (d / 2);
    assert (q / d) * (2 * (d / 2)) == 2 * ((q / d) * (d / 2));
  }

  lemma StickyInteger(t: real)
    requires t >= 0.0
    ensures Sticky(t) == if t == t.Floor as real || t.Floor % 2 == 1 then t.Floor else t.Floor + 1
    ensures (Sticky(t) as real).Floor == Sticky(t) >= 0
  {
  }

  lemma Pow2Mod4(k: nat)
    requires k >= 2
    ensures Pow(2, k) % 4 == 0
  {
    assert Pow(2, k) == 2 * Pow(2, k - 1) == 4 * Pow(2, k - 2);
  }

  lemma ScaleInverse(x: real, k: int)
    requires k >= 0
    ensures Scale(x, 2, -k) * Pow(2, k) as real == x
  {
    hide Pow;
    RPowInverse(2, k);
  }

  /** A sticky bit rounds like the exact value once at least two bits are dropped. */
  lemma StickyRounds(t: real, k: int, mode: Mode)
    requires t >= 0.0 && k >= 2
    ensures Round(Scale(Sticky(t) as real, 2, -k), mode) == Round(Scale(t, 2, -k), mode)
  {
    hide RoundQuotient, Round, Scale, Sticky;
    Pow2Mod4(k);
    var d := Pow(2, k);
    StickyInteger(t);
    StickyQuotient(t.Floor, t == t.Floor as real, d, mode);
    ScaleInverse(t, k);
    RoundQuotientIsRound(t, Scale(t, 2, -k), d, mode);
    var s := Sticky(t) as real;
    ScaleInverse(s, k);
    RoundQuotientIsRound(s, Scale(s, 2, -k), d, mode);
  }
}
