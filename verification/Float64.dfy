/** The float64 format, without any floating point: bit patterns, the magnitude a pattern
    stands for, and rounding of a real number to the nearest pattern.

    Magnitudes are counted in units of 2^-1074, the smallest subnormal. The pattern of
    infinity counts as 2^1024, which makes the IEEE 754 overflow rule (from halfway between
    the largest finite number and 2^1024 upwards, round to infinity) part of "nearest". */
module Float64 {
  import opened Arith
  import opened Rounding

  const P52: nat := 0x10_0000_0000_0000
  const P53: nat := 0x20_0000_0000_0000

  /** The pattern of +infinity: exponent field 0x7ff, mantissa 0. */
  const INFINITY: nat := 0x7ff0_0000_0000_0000

  /** The magnitude of a sign-less pattern, in units of 2^-1074. */
  ghost function Units(a: nat): nat {
    var e, m := a / P52, a % P52;
    if e == 0 then m else (P52 + m) * Pow(2, e - 1)
  }

  lemma UnitsOfFields(a: nat, e: nat, m: nat)
    requires a == e * P52 + m && m < P52
    ensures Units(a) == if e == 0 then m else (P52 + m) * Pow(2, e - 1)
  {
    FieldsOf(a, e, m);
  }

  lemma FieldsOf(a: nat, e: nat, m: nat)
    requires a == e * P52 + m && m < P52
    ensures a / P52 == e && a % P52 == m
  {
  }

  lemma PowTwo(u: nat)
    ensures Pow(2, 0) == 1 && Pow(2, u + 1) == 2 * Pow(2, u)
  {
  }

  /** m units of 2^u, for a normalised or subnormal m. */
  lemma UnitsOf(u: nat, m: nat)
    requires m <= P53 && (u == 0 || m >= P52)
    ensures Units(u * P52 + m) == m * Pow(2, u)
  {
    hide Units, Pow;
    var a := u * P52 + m;
    PowTwo(u);
    if m < P52 {
      UnitsOfFields(a, 0, m);
    } else if m < P53 {
      UnitsOfFields(a, u + 1, m - P52);
    } else {
      UnitsOfFields(a, u + 2, 0);
    }
  }

  lemma UnitsStep(a: nat)
    ensures Units(a) < Units(a + 1)
  {
    hide Units, Pow;
    var e, m := a / P52, a % P52;
    UnitsOfFields(a, e, m);
    if m + 1 < P52 {
      UnitsOfFields(a + 1, e, m + 1);
      if e > 0 {
        NextMultiple(P52 + m, Pow(2, e - 1));
      }
    } else {
      UnitsOfFields(a + 1, e + 1, 0);
      if e > 0 {
        PowTwo(e - 1);
        NextMultiple(P52 + m, Pow(2, e - 1));
      } else {
        PowTwo(0);
      }
    }
  }

  lemma NextMultiple(k: nat, p: nat)
    requires p > 0
    ensures k * p < (k + 1) * p
  {
  }

  /** Patterns are ordered like their magnitudes. */
  lemma {:induction false} UnitsMono(a: nat, b: nat)
    requires a < b
    ensures Units(a) < Units(b)
    decreases b - a
  {
    hide Units;
    UnitsStep(a);
    if a + 1 < b {
      UnitsMono(a + 1, b);
    }
  }

  lemma UnitsInjective(a: nat, b: nat)
    requires Units(a) == Units(b)
    ensures a == b
  {
    hide Units;
    if a < b {
      UnitsMono(a, b);
    } else if b < a {
      UnitsMono(b, a);
    }
  }

  /** x in units of 2^-1074. */
  ghost function InUnits(x: real): real {
    Scale(x, 2, 1074)
  }

  /** Distance of a pattern's magnitude from y units. */
  ghost function Distance(y: real, a: nat): real {
    Abs(y - Units(a) as real)
  }

  /** a is the float64 nearest to x; of two equally near ones, the even pattern. */
  ghost predicate Nearest(x: real, a: nat) {
    a <= INFINITY &&
    forall b: nat :: b <= INFINITY && b != a ==>
      Distance(InUnits(x), a) < Distance(InUnits(x), b) ||
      (Distance(InUnits(x), a) == Distance(InUnits(x), b) && a % 2 == 0)
  }

  lemma BetweenIsNearer(y: real, a: nat, b: nat)
    requires a + 1 < b && Distance(y, a) == Distance(y, b)
    ensures Distance(y, a + 1) < Distance(y, a)
  {
    hide Units;
    UnitsMono(a, a + 1);
    UnitsMono(a + 1, b);
  }

  /** There is only one nearest float64: two even patterns at equal distance would have a
      nearer odd one between them. */
  lemma NearestUnique(x: real, a: nat, b: nat)
    requires Nearest(x, a) && Nearest(x, b)
    ensures a == b
  {
    hide Units, Distance, InUnits;
    if a < b {
      BetweenIsNearer(InUnits(x), a, b);
    } else if b < a {
      BetweenIsNearer(InUnits(x), b, a);
    }
  }

  /** Distance from a multiple of 2^u units, measured on the grid: d and c are the distances
      of the value and of the scaled value. */
  lemma DistanceOnGrid(y: real, z: real, p: nat, a: nat, m: nat, d: real, c: real)
    requires p > 0 && y == z * p as real && Units(a) == m * p
    requires d == Distance(y, a) && c == Abs(z - m as real)
    ensures d == c * p as real
  {
    hide Units;
    assert y - Units(a) as real == (z - m as real) * p as real;
    MulCompare(p as real, z - m as real, 0.0);
  }

  /** Every pattern from exponent field u + 1 on is a multiple of 2^u units; below it,
      every pattern is under 2^52 * 2^u units. */
  lemma GridOf(b: nat, u: nat) returns (k: nat)
    ensures b >= (u + 1) * P52 || u == 0 ==> Units(b) == k * Pow(2, u)
    ensures b < (u + 1) * P52 ==> Units(b) < P52 * Pow(2, u)
  {
    hide Units, Pow;
    var e, m := b / P52, b % P52;
    UnitsOfFields(b, e, m);
    if e == 0 {
      k := m;
      PowTwo(0);
    } else if e >= u + 1 {
      k := (P52 + m) * Pow(2, e - 1 - u);
      PowAdd(2, e - 1 - u, u);
      assert (P52 + m) * (Pow(2, e - 1 - u) * Pow(2, u)) == k * Pow(2, u);
    } else {
      k := 0;
    }
    if b < (u + 1) * P52 {
      UnitsOf(u, P52);
      UnitsMono(b, u * P52 + P52);
    }
  }

  /** Rounding to the grid of spacing 2^u is rounding to the nearest float64, when the value
      has the 53-bit size that belongs to u. */
  lemma NearestByRounding(x: real, u: int, m: int)
    requires 0 <= u <= 2045
    requires var z := Scale(InUnits(x), 2, -u);
             0.0 <= z < P53 as real && (u == 0 || z >= P52 as real) && m == Round(z, NearestEven)
    ensures 0 <= m <= P53 && Nearest(x, u * P52 + m)
  {
    hide Units, Pow, Round, Scale, InUnits, Distance;
    var y := InUnits(x);
    var z := Scale(y, 2, -u);
    RoundedSize(z, u, m);
    UnitsOf(u, m);
    var a := u * P52 + m;
    forall b: nat | b <= INFINITY && b != a
      ensures Distance(y, a) < Distance(y, b) || (Distance(y, a) == Distance(y, b) && a % 2 == 0)
    {
      var k := GridOf(b, u);
      ScaleInverse(y, u);
      if b >= (u + 1) * P52 || u == 0 {
        if k == m {
          UnitsInjective(a, b);
        }
        OnGrid(y, z, u, a, m, b, k);
      } else {
        BelowGrid(y, z, u, a, m, b);
      }
    }
  }

  lemma RoundedSize(z: real, u: int, m: int)
    requires 0.0 <= z < P53 as real && (u == 0 || z >= P52 as real) && m == Round(z, NearestEven)
    ensures 0 <= m <= P53 && (u == 0 || m >= P52)
  {
  }

  lemma OnGrid(y: real, z: real, u: nat, a: nat, m: nat, b: nat, k: nat)
    requires z >= 0.0 && z * Pow(2, u) as real == y && m == Round(z, NearestEven) && k != m
    requires Units(a) == m * Pow(2, u) && Units(b) == k * Pow(2, u) && a == u * P52 + m
    ensures Distance(y, a) < Distance(y, b) || (Distance(y, a) == Distance(y, b) && a % 2 == 0)
  {
    hide Units, Pow, Round, Distance, Abs;
    var p := Pow(2, u);
    var ca, cb := Abs(z - m as real), Abs(z - k as real);
    DistanceOnGrid(y, z, p, a, m, Distance(y, a), ca);
    DistanceOnGrid(y, z, p, b, k, Distance(y, b), cb);
    RoundIsNearest(z, k);
    GridOrder(Distance(y, a), Distance(y, b), ca, cb, p as real);
    ParityOf(u, m);
  }

  lemma GridOrder(x: real, y: real, c: real, d: real, p: real)
    requires p > 0.0 && x == c * p && y == d * p
    ensures x < y <==> c < d
    ensures x == y <==> c == d
  {
    MulCompare(p, c, d);
  }

  lemma ParityOf(u: nat, m: nat)
    ensures (u * P52 + m) % 2 == m % 2
  {
  }

  lemma BelowGrid(y: real, z: real, u: nat, a: nat, m: nat, b: nat)
    requires z >= P52 as real && z * Pow(2, u) as real == y && m == Round(z, NearestEven)
    requires Units(a) == m * Pow(2, u) && Units(b) < P52 * Pow(2, u)
    ensures Distance(y, a) < Distance(y, b)
  {
    hide Units, Pow, Round, Distance, Abs;
    var p := Pow(2, u);
    var ca, cb := Abs(z - m as real), Abs(z - P52 as real);
    DistanceOnGrid(y, z, p, a, m, Distance(y, a), ca);
    RoundIsNearest(z, P52);
    MulCompare(p as real, cb, ca);
    FartherBelow(y, z, p, b);
  }

  lemma FartherBelow(y: real, z: real, p: nat, b: nat)
    requires p > 0 && z >= P52 as real && y == z * p as real && Units(b) < P52 * p
    ensures Abs(z - P52 as real) * p as real < Distance(y, b)
  {
    hide Units;
    MulCompare(p as real, P52 as real, z);
    assert (z - P52 as real) * p as real == y - (P52 * p) as real;
  }

  /** From 2^1024 on, the nearest float64 is infinity. */
  lemma NearestOverflow(x: real)
    requires x >= RPow(2, 1024)
    ensures Nearest(x, INFINITY)
  {
    hide Units, Pow, RPow, Scale;
    UnitsOf(2045, P53);
    ScaleMono(RPow(2, 1024), x, 2, 1074);
    InfinityUnits();
    forall b: nat | b <= INFINITY && b != INFINITY
      ensures Distance(InUnits(x), INFINITY) < Distance(InUnits(x), b)
    {
      UnitsMono(b, INFINITY);
    }
  }

  lemma InfinityUnits()
    ensures Units(INFINITY) as real == Scale(RPow(2, 1024), 2, 1074)
  {
    hide Units, Pow, RPow;
    UnitsOf(2045, P53);
    FastPowIsPow(2, 53);
    assert FastPow(2, 53) == P53;
    PowAdd(2, 53, 2045);
    PositivePower(2, 1024);
    PositivePower(2, 1074);
    PowAdd(2, 1024, 1074);
  }

  /** Up to half the smallest subnormal, the nearest float64 is zero. */
  lemma NearestUnderflow(x: real)
    requires 0.0 <= x <= RPow(2, -1075)
    ensures Nearest(x, 0)
  {
    hide Units, Pow, RPow, Scale;
    ScaleMono(x, RPow(2, -1075), 2, 1074);
    ScaleMono(0.0, x, 2, 1074);
    HalfUnit();
    UnitsOfFields(0, 0, 0);
    UnitsOfFields(1, 0, 1);
    forall b: nat | b <= INFINITY && b != 0
      ensures Distance(InUnits(x), 0) <= Distance(InUnits(x), b)
    {
      if b > 1 {
        UnitsMono(1, b);
      }
    }
  }

  lemma HalfUnit()
    ensures Scale(RPow(2, -1075), 2, 1074) == 0.5
    ensures Scale(0.0, 2, 1074) == 0.0
  {
    hide RPow;
    RPowAdd(2, -1075, 1074);
    RPowStep(2, -1);
    RPowZero(2);
  }

}
