/** Halfway points of neighbouring float64: they alone decide which float64 is nearest, and so when replacing a
    number by a smaller one changes the nearest float64. */
module Halfway {
  import opened Rounding
  import opened Float64

  /** The point halfway between a pattern's magnitude and the next one, in units. */
  ghost function Half(a: nat): real {
    (Units(a) as real + Units(a + 1) as real) / 2.0
  }

  /** y units lie between the halfway points around a, on one of them only if a is even. */
  ghost predicate InCell(y: real, a: nat) {
    && a <= INFINITY
    && (a > 0 ==> Half(a - 1) <= y && (y == Half(a - 1) ==> a % 2 == 0))
    && (a < INFINITY ==> y <= Half(a) && (y == Half(a) ==> a % 2 == 0))
  }

  lemma HalfMono(a: nat, b: nat)
    requires a < b
    ensures Half(a) < Half(b)
  {
    hide Units;
    UnitsMono(a, b);
    UnitsMono(a + 1, b + 1);
  }

  /** Which of two patterns is nearer, seen from the halfway point between neighbours. */
  lemma NextIsNearer(y: real, a: nat)
    ensures Distance(y, a) < Distance(y, a + 1) <==> y < Half(a)
    ensures Distance(y, a) == Distance(y, a + 1) <==> y == Half(a)
  {
    hide Units;
    UnitsMono(a, a + 1);
  }

  /** Beyond a neighbour that is no nearer, everything is farther. */
  lemma FartherAbove(y: real, a: nat, b: nat)
    requires y <= Half(a) && a + 1 < b
    ensures Distance(y, a) < Distance(y, b)
  {
    hide Units;
    UnitsMono(a, a + 1);
    UnitsMono(a + 1, b);
  }

  lemma FartherBelow(y: real, a: nat, b: nat)
    requires a > 0 && Half(a - 1) <= y && b < a - 1
    ensures Distance(y, a) < Distance(y, b)
  {
    hide Units;
    UnitsMono(a - 1, a);
    UnitsMono(b, a - 1);
  }

  lemma NearestInCell(x: real, a: nat)
    requires Nearest(x, a)
    ensures InCell(InUnits(x), a)
  {
    hide Half, Distance, InUnits;
    var y := InUnits(x);
    if a > 0 {
      NextIsNearer(y, a - 1);
      assert Distance(y, a) < Distance(y, a - 1) || (Distance(y, a) == Distance(y, a - 1) && a % 2 == 0);
    }
    if a < INFINITY {
      NextIsNearer(y, a);
      assert Distance(y, a) < Distance(y, a + 1) || (Distance(y, a) == Distance(y, a + 1) && a % 2 == 0);
    }
  }

  lemma CellIsNearest(x: real, a: nat)
    requires InCell(InUnits(x), a)
    ensures Nearest(x, a)
  {
    hide Half, Distance, InUnits;
    var y := InUnits(x);
    forall b: nat | b <= INFINITY && b != a
      ensures Distance(y, a) < Distance(y, b) || (Distance(y, a) == Distance(y, b) && a % 2 == 0)
    {
      if b == a + 1 {
        NextIsNearer(y, a);
      } else if b > a {
        FartherAbove(y, a, b);
      } else if b + 1 == a {
        NextIsNearer(y, b);
      } else {
        FartherBelow(y, a, b);
      }
    }
  }

  /** The halfway point above b separates x from the larger y: they round to different sides of it, a tie going to
      the even neighbour. */
  ghost predicate Separates(b: nat, x: real, y: real) {
    && b < INFINITY && x < y && x <= Half(b) <= y
    && (x == Half(b) ==> b % 2 == 0) && (y == Half(b) ==> b % 2 == 1)
  }

  /** The float64 nearest to x is nearest to the larger y exactly when no halfway point separates them. */
  lemma NearestKept(x: real, y: real, a: nat)
    requires Nearest(x, a) && InUnits(x) <= InUnits(y)
    ensures Nearest(y, a) <==> !exists b: nat :: Separates(b, InUnits(x), InUnits(y))
  {
    hide Half, Nearest, InUnits;
    NearestInCell(x, a);
    if Nearest(y, a) {
      NearestInCell(y, a);
      forall b: nat
        ensures !Separates(b, InUnits(x), InUnits(y))
      {
        SameCell(InUnits(x), InUnits(y), a, b);
      }
    } else {
      if InCell(InUnits(y), a) {
        CellIsNearest(y, a);
      }
      assert Separates(a, InUnits(x), InUnits(y));
    }
  }

  /** No halfway point separates two numbers with the same nearest float64. */
  lemma SameCell(x: real, y: real, a: nat, b: nat)
    requires InCell(x, a) && InCell(y, a)
    ensures !Separates(b, x, y)
  {
    hide Half;
    if b > a {
      HalfMono(a, b);
    } else if b + 1 < a {
      HalfMono(b, a - 1);
    }
  }
}
