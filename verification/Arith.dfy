/** Powers, exact integer division and the three rounding modes.

    Integers carry the limb arithmetic; reals carry the numbers that the
    limbs stand for, so that `radix^f` and `2^e` need no case split on the sign
    of the exponent. */
module Arith {

  // ----- integer powers -----

  function Pow(b: nat, n: nat): (r: nat)
    ensures b > 0 ==> r > 0
  {
    if n == 0 then 1 else b * Pow(b, n - 1)
  }

  /** The same power by repeated squaring; used to evaluate large literals. */
  function FastPow(b: nat, n: nat): nat
    decreases n
  {
    if n == 0 then 1
    else if n % 2 == 0 then FastPow(b * b, n / 2)
    else b * FastPow(b * b, n / 2)
  }

  lemma {:induction false} PowAdd(b: nat, m: nat, n: nat)
    ensures Pow(b, m + n) == Pow(b, m) * Pow(b, n)
  {
    if m == 0 {
    } else {
      PowAdd(b, m - 1, n);
      assert b * (Pow(b, m - 1) * Pow(b, n)) == (b * Pow(b, m - 1)) * Pow(b, n);
    }
  }

  lemma PowPred(b: nat, n: nat)
    requires n >= 1
    ensures Pow(b, n) == b * Pow(b, n - 1)
  {
  }

  lemma {:induction false} PowSquare(b: nat, n: nat)
    ensures Pow(b * b, n) == Pow(b, 2 * n)
  {
    if n == 0 {
    } else {
      PowSquare(b, n - 1);
      assert Pow(b, 2 * n) == b * (b * Pow(b, 2 * n - 2));
    }
  }

  lemma {:induction false} FastPowIsPow(b: nat, n: nat)
    ensures FastPow(b, n) == Pow(b, n)
    decreases n
  {
    if n == 0 {
    } else {
      FastPowIsPow(b * b, n / 2);
      PowSquare(b, n / 2);
    }
  }

  lemma {:induction false} PowMono(b: nat, m: nat, n: nat)
    requires b > 0 && m <= n
    ensures Pow(b, m) <= Pow(b, n)
  {
    PowAdd(b, m, n - m);
    MulGe(Pow(b, m), 1, Pow(b, n - m));
  }

  lemma {:induction false} PowBaseMono(a: nat, b: nat, n: nat)
    requires a <= b
    ensures Pow(a, n) <= Pow(b, n)
  {
    if n == 0 {
    } else {
      PowBaseMono(a, b, n - 1);
      MulMono(a, b, Pow(a, n - 1), Pow(b, n - 1));
    }
  }

  lemma {:induction false} PowOfPow(b: nat, m: nat, n: nat)
    ensures Pow(Pow(b, m), n) == Pow(b, m * n)
  {
    if n == 0 {
    } else {
      PowOfPow(b, m, n - 1);
      assert m * n == m + m * (n - 1);
      PowAdd(b, m, m * (n - 1));
    }
  }

  lemma {:induction false} PowOfProduct(a: nat, b: nat, n: nat)
    ensures Pow(a * b, n) == Pow(a, n) * Pow(b, n)
  {
    if n == 0 {
    } else {
      PowOfProduct(a, b, n - 1);
      Interchange(a, b, Pow(a, n - 1), Pow(b, n - 1));
    }
  }

  lemma Interchange(a: nat, b: nat, x: nat, y: nat)
    ensures (a * b) * (x * y) == (a * x) * (b * y)
  {
    assert (a * b) * (x * y) == a * (b * (x * y)) == a * (x * (b * y));
  }

  lemma PowPositive(b: nat, n: nat)
    requires b > 0
    ensures Pow(b, n) >= 1 && (n >= 1 ==> Pow(b, n - 1) >= 1)
  {
  }

  function Min(a: nat, b: nat): nat {
    if a < b then a else b
  }

  lemma MulMono(a: nat, b: nat, c: nat, d: nat)
    requires a <= b && c <= d
    ensures a * c <= b * d
  {
    assert a * c <= b * c <= b * d;
  }

  lemma MulGe(a: nat, c: nat, d: nat)
    requires c <= d
    ensures a * c <= a * d
  {
  }

  // ----- integer division -----

  lemma SmallMultiple(k: int, d: int)
    requires -d < k * d < d
    ensures k == 0
  {
  }

  /** Quotient and remainder are determined by the division identity. */
  lemma DivUnique(n: int, d: int, q: int, r: int)
    requires n == q * d + r && 0 <= r < d
    ensures n / d == q && n % d == r
  {
    assert (n / d - q) * d == r - n % d;
    SmallMultiple(n / d - q, d);
  }

  /** Two truncated divisions in a row are one division by the product, and
      the product divides the number exactly when both remainders are zero. */
  lemma NestedDivision(n: nat, a: nat, b: nat)
    requires a > 0 && b > 0
    ensures a * b > 0
    ensures n / a / b == n / (a * b)
    ensures n % (a * b) == 0 <==> n % a == 0 && n / a % b == 0
  {
    var q, ab := n / a, a * b;
    NestedParts(n, a, b, q, n % a, q / b, q % b, ab);
    DivUnique(n, ab, q / b, q % b * a + n % a);
  }

  lemma NestedParts(n: nat, a: nat, b: nat, q: nat, r: nat, q2: nat, r2: nat, ab: nat)
    requires n == q * a + r && r < a && q == q2 * b + r2 && r2 < b && ab == a * b
    ensures ab > 0 && n == q2 * ab + (r2 * a + r) && r2 * a + r < ab
    ensures r2 * a + r == 0 <==> r == 0 && r2 == 0
  {
    Regroup(a, b, q2, r2, ab);
    MulGe(a, r2 + 1, b);
    if r2 > 0 {
      MulGe(a, 1, r2);
    }
  }

  lemma Regroup(a: nat, b: nat, q: nat, r: nat, ab: nat)
    requires ab == a * b
    ensures a * (b * q + r) == q * ab + r * a
  {
    assert a * (b * q) == q * (a * b);
  }

  lemma DivLess(n: nat, d: nat, k: nat)
    requires d > 0 && n < d * k
    ensures n / d < k
  {
    if n / d >= k {
      MulGe(d, k, n / d);
    }
  }
}
