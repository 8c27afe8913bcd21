/** Division of a double word by a normalised limb through a precomputed
    reciprocal (Granlund and Montgomery), with all the wrap-around of the C code. */
module Reciprocal {
  import opened Arith
  import opened Limbs

  /** A divisor whose top bit is set. */
  type NormLimb = x: int | 0x8000_0000 <= x < 0x1_0000_0000 witness 0x8000_0000

  /** The reciprocal limb: 2^64 / d - 2^32, rounded down. */
  function Udiv1NormInit(d: NormLimb): (inv: Limb)
    ensures (inv + BASE) * d <= DBASE - 1 < (inv + BASE) * d + d
  {
    var a1 := BASE - d - 1;
    var n := a1 * BASE + (BASE - 1);
    assert n == DBASE - 1 - BASE * d;
    DivLess(n, d, BASE);
    assert n == (n / d) * d + n % d;
    n / d
  }

  function Wrap32(x: int): (r: Limb)
    ensures 0 <= x < BASE ==> r == x
  {
    x % BASE
  }

  function Wrap64(x: int): (r: nat)
    ensures r < DBASE
    ensures 0 <= x < DBASE ==> r == x
    ensures x < 0 <= x + DBASE ==> r == x + DBASE
  {
    x % DBASE
  }

  function High(x: nat): (r: Limb)
    requires x < DBASE
    ensures BASE * r <= x < BASE * r + BASE
  {
    x / BASE
  }

  /** Quotient and remainder of a1 * 2^32 + a0 by d. */
  function Udiv1Norm(a1: Limb, a0: Limb, d: NormLimb, dInv: Limb): (Limb, Limb) {
    var q := Estimate(a1, a0, d, dInv);
    var a := Wrap64(a1 * BASE + a0 - q * d - d);
    var ah := High(a);
    (Wrap32(q + 1 + ah), Wrap32(a - BASE * ah + (if ah == BASE - 1 then d else 0)))
  }

  /** The first estimate of the quotient, from the reciprocal. */
  function Estimate(a1: Limb, a0: Limb, d: NormLimb, dInv: Limb): Limb {
    var negative := a0 >= 0x8000_0000;
    var nAdj := if negative then Wrap32(a0 + d) else a0;
    var n1 := if negative then Wrap32(a1 + 1) else a1;
    var est := Wrap64(dInv * n1 + nAdj);
    Wrap32(High(est) + a1)
  }

  lemma GapSmall(a1: int, a0: int, d: int, m: int, k: int)
    requires m * d == DBASE - k
    ensures BASE * (a1 * BASE + a0) - d * (m * a1 + a0) == a0 * (BASE - d) + k * a1
  {
    assert d * (m * a1 + a0) == (m * d) * a1 + d * a0;
    assert (DBASE - k) * a1 == DBASE * a1 - k * a1;
  }

  lemma GapLarge(a2: int, a0: int, d: int, m: int, k: int)
    requires m * d == DBASE - k
    ensures BASE * ((a2 - 1) * BASE + a0) - d * (m * a2 + a0 + d - 2 * BASE) == (a0 - (BASE - d)) * (BASE - d) + k * a2
  {
    assert d * (m * a2 + a0 + d - 2 * BASE) == (m * d) * a2 + d * a0 + d * d - 2 * BASE * d;
    assert (DBASE - k) * a2 == DBASE * a2 - k * a2;
    assert (BASE - d) * (BASE - d) == DBASE - 2 * BASE * d + d * d;
    assert (a0 - (BASE - d)) * (BASE - d) == a0 * (BASE - d) - (BASE - d) * (BASE - d);
  }

  lemma GapBound(a: nat, x: nat, d: nat, k: nat, b: nat)
    requires d <= b
    requires a <= d && x <= d && k <= d
    ensures 0 <= x * (b - d) + k * a <= b * d
  {
    var c := b - d;
    MulMono(x, d, c, c);
    MulMono(k, d, a, d);
    assert d * c == d * b - d * d;
  }

  /** The estimate x = m * a1 + a0 with m = inv + 2^32 satisfies x / 2^32 <= n / d, and nearly so. */
  lemma EstimateSmall(a1: Limb, a0: Limb, d: NormLimb, m: nat)
    requires a1 < d && a0 < 0x8000_0000
    requires m * d <= DBASE - 1 < m * d + d
    ensures 0 <= BASE * (a1 * BASE + a0) - d * (m * a1 + a0) < BASE * d + d
  {
    var k := DBASE - m * d;
    GapSmall(a1, a0, d, m, k);
    GapBound(a1, a0, d, k, BASE);
  }

  lemma EstimateLarge(a1: Limb, a0: Limb, d: NormLimb, m: nat)
    requires a1 < d && a0 >= 0x8000_0000
    requires m * d <= DBASE - 1 < m * d + d
    ensures 0 <= BASE * (a1 * BASE + a0) - d * (m * (a1 + 1) + a0 + d - 2 * BASE) < BASE * d + d
  {
    var k := DBASE - m * d;
    GapLarge(a1 + 1, a0, d, m, k);
    GapBound(a1 + 1, a0 - (BASE - d), d, k, BASE);
  }

  /** An estimate x of BASE * (n / d) this close gives a quotient at most one short. */
  lemma EstimateQuotient(n: int, d: nat, x: int, q: int)
    requires d > 0
    requires 0 <= BASE * n - d * x < BASE * d + d
    requires BASE * q <= x < BASE * q + BASE
    ensures q * d <= n < q * d + 2 * d
  {
    var r := x - BASE * q;
    assert d * x == BASE * (q * d) + d * r;
    MulGe(d, 0, r);
    MulGe(d, r, BASE - 1);
  }

  /** The correction step: subtracting one divisor too many borrows exactly when the
      estimated quotient was already right. */
  lemma Correct(n: nat, d: nat, q: nat, qd: nat)
    requires d > 0 && qd == q * d
    requires qd <= n < qd + 2 * d
    ensures qd + d <= n ==> n / d == q + 1 && n % d == n - qd - d
    ensures n < qd + d ==> n / d == q && n % d == n - qd
  {
    if qd + d <= n {
      DivUnique(n, d, q + 1, n - qd - d);
    } else {
      DivUnique(n, d, q, n - qd);
    }
  }

  /** Nothing wraps in the numerator of the estimate. */
  lemma Numerator(a1: Limb, a0: Limb, d: NormLimb, inv: Limb) returns (e: nat)
    requires a1 < d
    ensures e == (if a0 < 0x8000_0000 then inv * a1 + a0 else inv * (a1 + 1) + (a0 + d - BASE))
    ensures e < DBASE && Estimate(a1, a0, d, inv) == Wrap32(High(e) + a1)
  {
    hide Wrap32, Wrap64, High;
    if a0 < 0x8000_0000 {
      ProductFits(inv, a1, a0);
      e := inv * a1 + a0;
    } else {
      ProductFits(inv, a1 + 1, a0 + d - BASE);
      WrapOnce(a0 + d);
      e := inv * (a1 + 1) + (a0 + d - BASE);
    }
  }

  lemma WrapOnce(x: nat)
    requires BASE <= x < 2 * BASE
    ensures Wrap32(x) == x - BASE
  {
  }

  lemma QuotientInRange(n: nat, d: nat, q: nat)
    requires n < BASE * d && q * d <= n
    ensures q < BASE
  {
  }

  /** The reciprocal's estimate is the quotient or one less. */
  lemma EstimateIsClose(a1: Limb, a0: Limb, d: NormLimb, inv: Limb)
    requires a1 < d && (inv + BASE) * d <= DBASE - 1 < (inv + BASE) * d + d
    ensures var n := a1 * BASE + a0; var q := Estimate(a1, a0, d, inv);
            q * d <= n < q * d + 2 * d
  {
    var n := a1 * BASE + a0;
    var e := Numerator(a1, a0, d, inv);
    hide Estimate, Wrap32, High;
    if a0 < 0x8000_0000 {
      EstimateSmall(a1, a0, d, inv + BASE);
      assert e + BASE * a1 == (inv + BASE) * a1 + a0;
    } else {
      EstimateLarge(a1, a0, d, inv + BASE);
      assert e + BASE * a1 == (inv + BASE) * (a1 + 1) + a0 + d - 2 * BASE;
    }
    var q := High(e) + a1;
    EstimateQuotient(n, d, e + BASE * a1, q);
    MulGe(BASE, a1 + 1, d);
    QuotientInRange(n, d, q);
  }

  /** The normalised division step is exact for every double word below d * 2^32. */
  lemma Udiv1NormExact(a1: Limb, a0: Limb, d: NormLimb)
    requires a1 < d
    ensures var n := a1 * BASE + a0;
            n / d < BASE && Udiv1Norm(a1, a0, d, Udiv1NormInit(d)) == (n / d, n % d)
  {
    var n := a1 * BASE + a0;
    var inv := Udiv1NormInit(d);
    var q := Estimate(a1, a0, d, inv);
    EstimateIsClose(a1, a0, d, inv);
    MulGe(BASE, a1 + 1, d);
    DivLess(n, d, BASE);
    CorrectedStep(n, d, q, q * d);
  }

  lemma CorrectedStep(n: nat, d: NormLimb, q: Limb, qd: nat)
    requires qd == q * d && qd <= n < qd + 2 * d && n < DBASE && n / d < BASE
    ensures var a := Wrap64(n - qd - d); var ah := High(a);
            Wrap32(q + 1 + ah) == n / d && Wrap32(a - BASE * ah + (if ah == BASE - 1 then d else 0)) == n % d
  {
    Correct(n, d, q, qd);
    var a := Wrap64(n - qd - d);
    if qd + d <= n {
      assert a == n - qd - d && High(a) == 0;
    } else {
      assert a == DBASE + (n - qd - d) && High(a) == BASE - 1;
      assert Wrap32(q + BASE) == q;
    }
  }

  /** The loop of mp_div1norm: division of (r0, taba) by a normalised limb; the arrays may be the same. */
  method DivNormLoop(tabr: array<Limb>, taba: array<Limb>, n: nat, b: NormLimb, r0: Limb, bInv: Limb) returns (r: Limb)
    requires n <= tabr.Length && n <= taba.Length && r0 < b && bInv == Udiv1NormInit(b)
    modifies tabr
    ensures old(Val(taba[..n])) + Pow(BASE, n) * r0 == Val(tabr[..n]) * b + r
    ensures r < b
    ensures tabr[n..] == old(tabr[n..])
  {
    assert Pow(BASE, 0) == 1;
    hide Pow, Udiv1NormInit;
    ghost var s, t := taba[..], tabr[..];
    r := r0;
    var i := n;
    while i > 0
      invariant 0 <= i <= n
      invariant taba[..i] == s[..i] && tabr[n..] == t[n..]
      invariant r < b
      invariant Val(s[i..n]) + Pow(BASE, n - i) * r0 == Val(tabr[i..n]) * b + r
    {
      i := i - 1;
      var a := taba[i];
      ghost var u := tabr[..n];
      var q, r' := DivDoubleNorm(r, a, b, bInv);
      DivStep(a, b, Val(s[i + 1..n]) + Pow(BASE, n - i - 1) * r0, Val(u[i + 1..]), r, q, r');
      Cons(s[..n], i);
      assert s[..n][i..] == s[i..n] && s[..n][i + 1..] == s[i + 1..n];
      tabr[i] := q;
      assert tabr[..n][i + 1..] == u[i + 1..] && tabr[..n][i..] == tabr[i..n];
      Cons(tabr[..n], i);
      PowStep(n - i - 1, r0);
      r := r';
    }
    assert s[..n] == s[0..n] == old(taba[..n]) && tabr[..n] == tabr[0..n];
  }

  /** Division of the double word (r, a) through the reciprocal. */
  method DivDoubleNorm(r: Limb, a: Limb, d: NormLimb, dInv: Limb) returns (q: Limb, r': Limb)
    requires r < d && dInv == Udiv1NormInit(d)
    ensures r * BASE + a == q * d + r' && r' < d
  {
    hide Udiv1Norm, Udiv1NormInit;
    Udiv1NormExact(r, a, d);
    var p := Udiv1Norm(r, a, d, dInv);
    q, r' := p.0, p.1;
  }

  /** The number that mp_div1norm divides by b: with a shift, its high limb comes from the shifted source, but its
      low limbs are those of the source as it then is, which has been shifted only if it is the destination. */
  ghost function Dividend(a: nat, w: nat, r0: nat, p: nat, same: bool): nat
    requires w > 0
  {
    w * (r0 * p + a * p / w) + (if same then a * p % w else a)
  }

  lemma HighFits(a: nat, w: nat, r0: nat, p: nat, d: nat)
    requires a < w && r0 < d && p > 0
    ensures r0 * p + a * p / w < d * p
  {
    MulMono(a + 1, w, p, p);
    DivLess(a * p, w, p);
    MulMono(r0 + 1, d, p, p);
  }

  /** A shifted number and its parts. */
  lemma ShiftedParts(a: nat, w: nat, p: nat, v: nat, l: nat)
    requires v + w * l == a * p && v < w
    ensures l == a * p / w && v == a * p % w
  {
    DivUnique(a * p, w, l, v);
  }

  /** The first step of mp_div1norm: the dividend is shifted into the destination. */
  method ShiftDividend(tabr: array<Limb>, taba: array<Limb>, n: nat, b: NormLimb, r0: Limb, shift: nat, ghost d: nat)
      returns (r: Limb)
    requires n <= tabr.Length && n <= taba.Length && shift < 32
    requires b == d * Pow(2, shift) && r0 < d
    modifies tabr
    ensures Pow(BASE, n) > 0
    ensures Pow(BASE, n) * r + Val(taba[..n]) ==
            Dividend(old(Val(taba[..n])), Pow(BASE, n), r0, Pow(2, shift), tabr == taba)
    ensures r < b
    ensures tabr[n..] == old(tabr[n..])
  {
    ghost var a, w := Val(taba[..n]), Pow(BASE, n);
    ValBound(taba[..n]);
    var p := Pow(2, shift);
    HighFits(a, w, r0, p, d);
    if shift == 0 {
      assert p == 1;
      DivUnique(a, w, 0, a);
      return r0;
    }
    hide Pow;
    var l := MpShl(tabr, taba, n, shift, 0);
    ValBound(tabr[..n]);
    ShiftedParts(a, w, p, Val(tabr[..n]), l);
    r := r0 * p + l;
  }

  /** q and r are the quotient of x by b and its remainder shifted back by p. */
  ghost predicate Gives(x: nat, b: nat, p: nat, q: nat, r: nat)
    requires b > 0 && p > 0
  {
    q == x / b && r == x % b / p
  }

  /** mp_div1norm: the quotient and the un-normalised remainder of the dividend that it ends up with, where
      b = d * 2^shift is normalised and bInv is its reciprocal. In place, as its only caller calls it, they are those
      of (r0, taba) divided by d. */
  method MpDiv1Norm(tabr: array<Limb>, taba: array<Limb>, n: nat, b: NormLimb, r0: Limb, bInv: Limb, shift: nat, ghost d: nat)
      returns (r: Limb)
    requires n <= tabr.Length && n <= taba.Length && shift < 32 && bInv == Udiv1NormInit(b)
    requires b == d * Pow(2, shift) && r0 < d
    modifies tabr
    ensures Gives(Dividend(old(Val(taba[..n])), Pow(BASE, n), r0, Pow(2, shift), tabr == taba), b, Pow(2, shift),
                  Val(tabr[..n]), r)
    ensures tabr == taba ==> old(Val(taba[..n])) + Pow(BASE, n) * r0 == Val(tabr[..n]) * d + r && r < d
    ensures tabr[n..] == old(tabr[n..])
  {
    hide Udiv1NormInit, Pow, Dividend, Gives;
    ghost var a, w := Val(taba[..n]), Pow(BASE, n);
    var p := Pow(2, shift);
    var r1 := ShiftDividend(tabr, taba, n, b, r0, shift, d);
    r := DivNormLoop(tabr, taba, n, b, r1, bInv);
    GivesAll(Dividend(a, w, r0, p, tabr == taba), b, p, Val(tabr[..n]), r);
    QuotientSmaller(r, p);
    r := r / p;
    if tabr == taba {
      InPlace(a, w, r0, d, p, b, Val(tabr[..n]), r);
    }
  }

  lemma GivesAll(x: nat, b: nat, p: nat, q: nat, r: nat)
    requires x == q * b + r && r < b && p > 0
    ensures Gives(x, b, p, q, r / p)
  {
    DivUnique(x, b, q, r);
  }

  /** Then q * d + r is x / p. */
  lemma GivesQuotient(x: nat, d: nat, p: nat, b: nat, q: nat, r: nat)
    requires d > 0 && p > 0 && b == d * p && b > 0 && Gives(x, b, p, q, r)
    ensures r < d && (q * d + r) * p <= x < (q * d + r) * p + p
  {
    var t := x % b;
    assert x == q * b + t && t < b;
    assert r * p <= t < r * p + p;
    DivLess(t, p, d);
    Regrouped(q, d, r, p, b);
  }

  lemma Regrouped(q: nat, d: nat, t: nat, p: nat, b: nat)
    requires b == d * p
    ensures (q * d + t) * p == q * b + t * p
  {
    assert (q * d) * p == q * (d * p);
  }

  lemma Parts(a: nat, w: nat, r0: nat, p: nat)
    requires w > 0
    ensures Dividend(a, w, r0, p, true) == (w * r0 + a) * p
    ensures Dividend(a, w, r0, p, false) == (w * r0 + a) * p + (a - a * p % w)
  {
    assert a * p == w * (a * p / w) + a * p % w;
    assert w * (r0 * p + a * p / w) == (w * r0) * p + w * (a * p / w);
  }

  /** z * p and y * p + c lie in the same block of p exactly when y is z and c stays inside. */
  lemma SameBlock(x: nat, y: nat, z: nat, p: nat, c: int)
    requires p > 0 && x == y * p + c && z * p <= x < z * p + p
    ensures y == z <==> 0 <= c < p
  {
    if 0 <= c < p {
      var k: int := y - z;
      assert k * p == y * p - z * p;
      SmallMultiple(k, p);
    }
  }

  /** In place the dividend is (r0, a) times p. */
  lemma InPlace(a: nat, w: nat, r0: nat, d: nat, p: nat, b: nat, q: nat, r: nat)
    requires w > 0 && d > 0 && p > 0 && b == d * p && b > 0 && Gives(Dividend(a, w, r0, p, true), b, p, q, r)
    ensures a + w * r0 == q * d + r && r < d
  {
    hide Gives, Dividend;
    Parts(a, w, r0, p);
    GivesQuotient(Dividend(a, w, r0, p, true), d, p, b, q, r);
    SameBlock(Dividend(a, w, r0, p, true), w * r0 + a, q * d + r, p, 0);
  }

  /** Out of place, quotient and remainder are right exactly when the source is not below what its shifted form
      keeps of it, and less than 2^shift above. */
  lemma OutOfPlace(a: nat, w: nat, r0: nat, d: nat, p: nat, b: nat, q: nat, r: nat)
    requires w > 0 && d > 0 && p > 0 && b == d * p && b > 0 && Gives(Dividend(a, w, r0, p, false), b, p, q, r)
    ensures a + w * r0 == q * d + r && r < d <==> a * p % w <= a < a * p % w + p
  {
    hide Gives, Dividend;
    Parts(a, w, r0, p);
    GivesQuotient(Dividend(a, w, r0, p, false), d, p, b, q, r);
    SameBlock(Dividend(a, w, r0, p, false), w * r0 + a, q * d + r, p, a - a * p % w);
  }

  /** Without a shift, that is always so. */
  lemma OutOfPlaceUnshifted(a: nat, w: nat, r0: nat, d: nat, q: nat, r: nat)
    requires a < w && d > 0 && Gives(Dividend(a, w, r0, 1, false), d, 1, q, r)
    ensures a + w * r0 == q * d + r && r < d
  {
    hide Gives, Dividend;
    DivUnique(a, w, 0, a);
    assert a * 1 % w == a;
    OutOfPlace(a, w, r0, d, 1, d, q, r);
  }

  /** Dividing 1 by 3, whose normal form is 3 * 2^30, it is not: quotient and remainder come out as 0. */
  lemma OutOfPlaceFails(q: nat, r: nat)
    requires Gives(Dividend(1, BASE, 0, 0x4000_0000, false), 3 * 0x4000_0000, 0x4000_0000, q, r)
    ensures q == 0 && r == 0 && 1 != q * 3 + r
  {
    assert 0x4000_0000 / BASE == 0;
  }

  lemma QuotientSmaller(r: nat, p: nat)
    requires p > 0
    ensures 0 <= r / p <= r
  {
    MulGe(r, 1, p);
    DivLess(r, p, r + 1);
  }
}
