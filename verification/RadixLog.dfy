/** log2 of the radices, as far as dtoa.c needs it: the fixed-point table of
    1 / log2(radix) and the function that multiplies by it. */
module RadixLog {
  import opened Arith
  import opened Rounding

  // ----- the table and the function -----

  /** 2^24 / log2(radix), rounded; 0 for powers of two. */
  function MulLog2RadixTable(radix: int): nat {
    match radix
    case 2 => 0x000000 case 3 => 0xa1849d case 4 => 0x000000 case 5 => 0x6e40d2 case 6 => 0x6308c9 case 7 => 0x5b3065
    case 8 => 0x000000 case 9 => 0x50c24e case 10 => 0x4d104d case 11 => 0x4a0027 case 12 => 0x4768ce case 13 => 0x452e54
    case 14 => 0x433d00 case 15 => 0x418677 case 16 => 0x000000 case 17 => 0x3ea16b case 18 => 0x3d645a case 19 => 0x3c43c2
    case 20 => 0x3b3b9a case 21 => 0x3a4899 case 22 => 0x39680b case 23 => 0x3897b3 case 24 => 0x37d5af case 25 => 0x372069
    case 26 => 0x367686 case 27 => 0x35d6df case 28 => 0x354072 case 29 => 0x34b261 case 30 => 0x342bea case 31 => 0x33ac62
    case 32 => 0x000000 case 33 => 0x32bfd9 case 34 => 0x3251dd case 35 => 0x31e8d6 case 36 => 0x318465
    case _ => 0x000000
  }

  /** log2(radix) when radix is a power of two, else 0. */
  function RadixBits(radix: int): nat {
    match radix
    case 2 => 1 case 4 => 2 case 8 => 3 case 16 => 4 case 32 => 5
    case _ => 0
  }

  /** C division: rounds towards zero. */
  function TruncDiv(a: int, b: int): int
    requires b > 0
  {
    if a >= 0 then a / b else -((-a) / b)
  }

  /** floor(a / log2(radix)) */
  function MulLog2Radix(a: int, radix: int): int
    requires 2 <= radix <= 36
  {
    var bits := RadixBits(radix);
    if bits != 0 then
      TruncDiv(if a < 0 then a - (bits - 1) else a, bits)
    else
      a * MulLog2RadixTable(radix) / 0x100_0000
  }

  // ----- rational bounds of log2 -----

  /** log2(b) < v / u */
  ghost predicate Below(b: nat, u: nat, v: nat) {
    Pow(b, u) < Pow(2, v)
  }

  /** v / u < log2(b) */
  ghost predicate Above(b: nat, u: nat, v: nat) {
    Pow(2, v) < Pow(b, u)
  }

  lemma MulStrict(a: nat, b: nat, c: nat, d: nat)
    requires a <= b && c < d && b > 0
    ensures a * c < b * d
  {
    MulMono(a, b, c, c);
    MulGe(b, c + 1, d);
  }

  lemma {:induction false} PowStrict(a: nat, b: nat, n: nat)
    requires a < b && n > 0
    ensures Pow(a, n) < Pow(b, n)
  {
    if n > 1 {
      PowStrict(a, b, n - 1);
      MulStrict(a, b, Pow(a, n - 1), Pow(b, n - 1));
    }
  }

  lemma RootStrict(a: nat, b: nat, n: nat)
    requires Pow(a, n) < Pow(b, n)
    ensures a < b
  {
    if b <= a {
      PowBaseMono(b, a, n);
    }
  }

  /** A bound of log2 b weakens to any fraction on its outer side. */
  lemma BelowScale(b: nat, u: nat, v: nat, p: nat, q: nat)
    requires Below(b, u, v) && u > 0 && p > 0 && p * v <= q * u
    ensures Below(b, p, q)
  {
    PowOfPow(b, p, u);
    PowOfPow(b, u, p);
    PowOfPow(2, v, p);
    PowOfPow(2, q, u);
    assert p * u == u * p && v * p == p * v;
    PowStrict(Pow(b, u), Pow(2, v), p);
    PowMono(2, p * v, q * u);
    RootStrict(Pow(b, p), Pow(2, q), u);
  }

  lemma AboveScale(b: nat, u: nat, v: nat, p: nat, q: nat)
    requires Above(b, u, v) && u > 0 && p > 0 && q * u <= p * v
    ensures Above(b, p, q)
  {
    PowOfPow(b, p, u);
    PowOfPow(b, u, p);
    PowOfPow(2, v, p);
    PowOfPow(2, q, u);
    assert p * u == u * p && v * p == p * v;
    PowStrict(Pow(2, v), Pow(b, u), p);
    PowMono(2, q * u, p * v);
    RootStrict(Pow(2, q), Pow(b, p), u);
  }

  lemma PowerOfRadix(b: nat, k: nat, s: nat, p: nat)
    ensures Pow(Pow(b, k) * Pow(2, s), p) == Pow(b, k * p) * Pow(2, s * p)
  {
    hide Pow;
    PowOfProduct(Pow(b, k), Pow(2, s), p);
    PowOfPow(b, k, p);
    PowOfPow(2, s, p);
  }

  /** From b to b^k * 2^s. */
  lemma Compose(b: nat, k: nat, s: nat, p: nat, q: nat, kp: nat, sp: nat)
    requires kp == k * p && sp == s * p
    ensures Below(b, kp, q) ==> Below(Pow(b, k) * Pow(2, s), p, q + sp)
    ensures Above(b, kp, q) ==> Above(Pow(b, k) * Pow(2, s), p, q + sp)
  {
    hide Pow;
    PowerOfRadix(b, k, s, p);
    PowAdd(2, q, sp);
    StrictScale(Pow(b, kp), Pow(2, q), Pow(2, sp));
  }

  lemma StrictScale(x: nat, y: nat, c: nat)
    requires c > 0
    ensures x < y ==> x * c < y * c
    ensures y < x ==> y * c < x * c
  {
  }

  lemma BelowByEvaluation(b: nat, u: nat, v: nat)
    requires FastPow(b, u) < FastPow(2, v)
    ensures Below(b, u, v)
  {
    FastPowIsPow(b, u);
    FastPowIsPow(2, v);
  }

  lemma AboveByEvaluation(b: nat, u: nat, v: nat)
    requires FastPow(2, v) < FastPow(b, u)
    ensures Above(b, u, v)
  {
    FastPowIsPow(b, u);
    FastPowIsPow(2, v);
  }

  lemma Below3()
    ensures Below(3, 971, 1539)
  {
    hide Below, Pow;
    assert FastPow(3, 971) < FastPow(2, 1539);
    BelowByEvaluation(3, 971, 1539);
  }

  lemma Above3()
    ensures Above(3, 665, 1054)
  {
    hide Above, Pow;
    assert FastPow(2, 1054) < FastPow(3, 665);
    AboveByEvaluation(3, 665, 1054);
  }

  lemma Below5()
    ensures Below(5, 643, 1493)
  {
    hide Below, Pow;
    assert FastPow(5, 643) < FastPow(2, 1493);
    BelowByEvaluation(5, 643, 1493);
  }

  lemma Above5()
    ensures Above(5, 789, 1832)
  {
    hide Above, Pow;
    assert FastPow(2, 1832) < FastPow(5, 789);
    AboveByEvaluation(5, 789, 1832);
  }

  lemma Below7()
    ensures Below(7, 571, 1603)
  {
    hide Below, Pow;
    assert FastPow(7, 571) < FastPow(2, 1603);
    BelowByEvaluation(7, 571, 1603);
  }

  lemma Above7()
    ensures Above(7, 680, 1909)
  {
    hide Above, Pow;
    assert FastPow(2, 1909) < FastPow(7, 680);
    AboveByEvaluation(7, 680, 1909);
  }

  lemma Below11()
    ensures Below(11, 37, 128)
  {
    hide Below, Pow;
    assert FastPow(11, 37) < FastPow(2, 128);
    BelowByEvaluation(11, 37, 128);
  }

  lemma Above11()
    ensures Above(11, 579, 2003)
  {
    hide Above, Pow;
    assert FastPow(2, 2003) < FastPow(11, 579);
    AboveByEvaluation(11, 579, 2003);
  }

  lemma Below13()
    ensures Below(13, 227, 840)
  {
    hide Below, Pow;
    assert FastPow(13, 227) < FastPow(2, 840);
    BelowByEvaluation(13, 227, 840);
  }

  lemma Above13()
    ensures Above(13, 464, 1717)
  {
    hide Above, Pow;
    assert FastPow(2, 1717) < FastPow(13, 464);
    AboveByEvaluation(13, 464, 1717);
  }

  lemma Below15()
    ensures Below(15, 290, 1133)
  {
    hide Below, Pow;
    assert FastPow(15, 290) < FastPow(2, 1133);
    BelowByEvaluation(15, 290, 1133);
  }

  lemma Above15()
    ensures Above(15, 247, 965)
  {
    hide Above, Pow;
    assert FastPow(2, 965) < FastPow(15, 247);
    AboveByEvaluation(15, 247, 965);
  }

  lemma Below17()
    ensures Below(17, 343, 1402)
  {
    hide Below, Pow;
    assert FastPow(17, 343) < FastPow(2, 1402);
    BelowByEvaluation(17, 343, 1402);
  }

  lemma Above17()
    ensures Above(17, 263, 1075)
  {
    hide Above, Pow;
    assert FastPow(2, 1075) < FastPow(17, 263);
    AboveByEvaluation(17, 263, 1075);
  }

  lemma Below19()
    ensures Below(19, 121, 514)
  {
    hide Below, Pow;
    assert FastPow(19, 121) < FastPow(2, 514);
    BelowByEvaluation(19, 121, 514);
  }

  lemma Above19()
    ensures Above(19, 480, 2039)
  {
    hide Above, Pow;
    assert FastPow(2, 2039) < FastPow(19, 480);
    AboveByEvaluation(19, 480, 2039);
  }

  lemma Below21()
    ensures Below(21, 339, 1489)
  {
    hide Below, Pow;
    assert FastPow(21, 339) < FastPow(2, 1489);
    BelowByEvaluation(21, 339, 1489);
  }

  lemma Above21()
    ensures Above(21, 130, 571)
  {
    hide Above, Pow;
    assert FastPow(2, 571) < FastPow(21, 130);
    AboveByEvaluation(21, 130, 571);
  }

  lemma Below23()
    ensures Below(23, 403, 1823)
  {
    hide Below, Pow;
    assert FastPow(23, 403) < FastPow(2, 1823);
    BelowByEvaluation(23, 403, 1823);
  }

  lemma Above23()
    ensures Above(23, 191, 864)
  {
    hide Above, Pow;
    assert FastPow(2, 864) < FastPow(23, 191);
    AboveByEvaluation(23, 191, 864);
  }

  lemma Below29()
    ensures Below(29, 169, 821)
  {
    hide Below, Pow;
    assert FastPow(29, 169) < FastPow(2, 821);
    BelowByEvaluation(29, 169, 821);
  }

  lemma Above29()
    ensures Above(29, 345, 1676)
  {
    hide Above, Pow;
    assert FastPow(2, 1676) < FastPow(29, 345);
    AboveByEvaluation(29, 345, 1676);
  }

  lemma Below31()
    ensures Below(31, 131, 649)
  {
    hide Below, Pow;
    assert FastPow(31, 131) < FastPow(2, 649);
    BelowByEvaluation(31, 131, 649);
  }

  lemma Above31()
    ensures Above(31, 371, 1838)
  {
    hide Above, Pow;
    assert FastPow(2, 1838) < FastPow(31, 371);
    AboveByEvaluation(31, 371, 1838);
  }

  lemma Below33()
    ensures Below(33, 45, 227)
  {
    hide Below, Pow;
    assert FastPow(33, 45) < FastPow(2, 227);
    BelowByEvaluation(33, 45, 227);
  }

  lemma Above33()
    ensures Above(33, 383, 1932)
  {
    hide Above, Pow;
    assert FastPow(2, 1932) < FastPow(33, 383);
    AboveByEvaluation(33, 383, 1932);
  }

  lemma Below35()
    ensures Below(35, 379, 1944)
  {
    hide Below, Pow;
    assert FastPow(35, 379) < FastPow(2, 1944);
    BelowByEvaluation(35, 379, 1944);
  }

  lemma Above35()
    ensures Above(35, 263, 1349)
  {
    hide Above, Pow;
    assert FastPow(2, 1349) < FastPow(35, 263);
    AboveByEvaluation(35, 263, 1349);
  }

  /** Neighbouring fractions p1/q1 < p2/q2 around 1 / log2(radix). */
  datatype Bounds = Bounds(p1: nat, q1: nat, p2: nat, q2: nat)

  function LogTable(radix: int): Bounds {
    match radix
    case 3 => Bounds(971, 1539, 665, 1054)
    case 5 => Bounds(643, 1493, 789, 1832)
    case 6 => Bounds(306, 791, 665, 1719)
    case 7 => Bounds(571, 1603, 680, 1909)
    case 9 => Bounds(153, 485, 512, 1623)
    case 10 => Bounds(497, 1651, 146, 485)
    case 11 => Bounds(37, 128, 579, 2003)
    case 12 => Bounds(306, 1097, 359, 1287)
    case 13 => Bounds(227, 840, 464, 1717)
    case 14 => Bounds(462, 1759, 109, 415)
    case 15 => Bounds(290, 1133, 247, 965)
    case 17 => Bounds(343, 1402, 263, 1075)
    case 18 => Bounds(153, 638, 359, 1497)
    case 19 => Bounds(121, 514, 480, 2039)
    case 20 => Bounds(351, 1517, 146, 631)
    case 21 => Bounds(339, 1489, 130, 571)
    case 22 => Bounds(37, 165, 431, 1922)
    case 23 => Bounds(403, 1823, 191, 864)
    case 24 => Bounds(306, 1403, 359, 1646)
    case 25 => Bounds(424, 1969, 73, 339)
    case 26 => Bounds(227, 1067, 237, 1114)
    case 27 => Bounds(102, 485, 359, 1707)
    case 28 => Bounds(353, 1697, 109, 524)
    case 29 => Bounds(169, 821, 345, 1676)
    case 30 => Bounds(290, 1423, 247, 1212)
    case 31 => Bounds(131, 649, 371, 1838)
    case 33 => Bounds(45, 227, 383, 1932)
    case 34 => Bounds(343, 1745, 263, 1338)
    case 35 => Bounds(379, 1944, 263, 1349)
    case 36 => Bounds(153, 791, 359, 1856)
    case _ => Bounds(1, RadixBits(radix), 1, RadixBits(radix))
  }

  lemma SmallPowers()
    ensures Pow(2, 0) == 1 && Pow(2, 1) == 2 && Pow(2, 2) == 4 && Pow(2, 3) == 8
    ensures Pow(3, 2) == 9 && Pow(3, 3) == 27 && Pow(5, 2) == 25
    ensures forall b: nat :: Pow(b, 1) == b
  {
  }

  lemma FromBase(b: nat, k: nat, s: nat, u1: nat, v1: nat, u2: nat, v2: nat, r: nat, t: Bounds)
    requires Below(b, u1, v1) && Above(b, u2, v2)
    requires u1 > 0 && u2 > 0 && k > 0 && t.p1 > 0 && t.p2 > 0
    requires s * t.p1 <= t.q1 && k * t.p1 * v1 <= (t.q1 - s * t.p1) * u1
    requires s * t.p2 <= t.q2 && (t.q2 - s * t.p2) * u2 <= k * t.p2 * v2
    requires r == Pow(b, k) * Pow(2, s)
    ensures Below(r, t.p1, t.q1) && Above(r, t.p2, t.q2)
  {
    hide Pow, Below, Above;
    assert k * t.p1 > 0 && k * t.p2 > 0;
    BelowScale(b, u1, v1, k * t.p1, t.q1 - s * t.p1);
    AboveScale(b, u2, v2, k * t.p2, t.q2 - s * t.p2);
    Compose(b, k, s, t.p1, t.q1 - s * t.p1, k * t.p1, s * t.p1);
    Compose(b, k, s, t.p2, t.q2 - s * t.p2, k * t.p2, s * t.p2);
  }

  /** The table's fractions enclose 1 / log2(radix). */
  lemma LogBounds(radix: nat)
    requires 2 <= radix <= 36 && RadixBits(radix) == 0
    ensures Below(radix, LogTable(radix).p1, LogTable(radix).q1) && Above(radix, LogTable(radix).p2, LogTable(radix).q2)
  {
    hide Below, Above, Pow;
    if radix == 3 || radix == 6 || radix == 9 || radix == 12 || radix == 18 || radix == 24 || radix == 27 || radix == 36 {
      LogBoundsA(radix);
    } else if radix == 5 || radix == 10 || radix == 20 || radix == 25 {
      LogBoundsB(radix);
    } else if radix == 7 || radix == 11 || radix == 14 || radix == 22 || radix == 28 {
      LogBoundsC(radix);
    } else if radix == 13 || radix == 15 || radix == 26 || radix == 30 {
      LogBoundsD(radix);
    } else if radix == 17 || radix == 19 || radix == 21 || radix == 34 {
      LogBoundsE(radix);
    } else if radix == 23 || radix == 29 || radix == 31 {
      LogBoundsF(radix);
    } else {
      LogBoundsG(radix);
    }
  }

  lemma LogBoundsA(r: nat)
    requires r in {3, 6, 9, 12, 18, 24, 27, 36}
    ensures Below(r, LogTable(r).p1, LogTable(r).q1) && Above(r, LogTable(r).p2, LogTable(r).q2)
  {
    hide Below, Above, Pow;
    SmallPowers();
    Below3();
    Above3();
    if r == 3 {
      FromBase(3, 1, 0, 971, 1539, 665, 1054, 3, LogTable(3));
    } else if r == 6 {
      FromBase(3, 1, 1, 971, 1539, 665, 1054, 6, LogTable(6));
    } else if r == 9 {
      FromBase(3, 2, 0, 971, 1539, 665, 1054, 9, LogTable(9));
    } else if r == 12 {
      FromBase(3, 1, 2, 971, 1539, 665, 1054, 12, LogTable(12));
    } else if r == 18 {
      FromBase(3, 2, 1, 971, 1539, 665, 1054, 18, LogTable(18));
    } else if r == 24 {
      FromBase(3, 1, 3, 971, 1539, 665, 1054, 24, LogTable(24));
    } else if r == 27 {
      FromBase(3, 3, 0, 971, 1539, 665, 1054, 27, LogTable(27));
    } else {
      FromBase(3, 2, 2, 971, 1539, 665, 1054, 36, LogTable(36));
    }
  }

  lemma LogBoundsB(r: nat)
    requires r in {5, 10, 20, 25}
    ensures Below(r, LogTable(r).p1, LogTable(r).q1) && Above(r, LogTable(r).p2, LogTable(r).q2)
  {
    hide Below, Above, Pow;
    SmallPowers();
    Below5();
    Above5();
    if r == 5 {
      FromBase(5, 1, 0, 643, 1493, 789, 1832, 5, LogTable(5));
    } else if r == 10 {
      FromBase(5, 1, 1, 643, 1493, 789, 1832, 10, LogTable(10));
    } else if r == 20 {
      FromBase(5, 1, 2, 643, 1493, 789, 1832, 20, LogTable(20));
    } else {
      FromBase(5, 2, 0, 643, 1493, 789, 1832, 25, LogTable(25));
    }
  }

  lemma LogBoundsC(r: nat)
    requires r in {7, 11, 14, 22, 28}
    ensures Below(r, LogTable(r).p1, LogTable(r).q1) && Above(r, LogTable(r).p2, LogTable(r).q2)
  {
    hide Below, Above, Pow;
    SmallPowers();
    Below7();
    Above7();
    Below11();
    Above11();
    if r == 7 {
      FromBase(7, 1, 0, 571, 1603, 680, 1909, 7, LogTable(7));
    } else if r == 11 {
      FromBase(11, 1, 0, 37, 128, 579, 2003, 11, LogTable(11));
    } else if r == 14 {
      FromBase(7, 1, 1, 571, 1603, 680, 1909, 14, LogTable(14));
    } else if r == 22 {
      FromBase(11, 1, 1, 37, 128, 579, 2003, 22, LogTable(22));
    } else {
      FromBase(7, 1, 2, 571, 1603, 680, 1909, 28, LogTable(28));
    }
  }

  lemma LogBoundsD(r: nat)
    requires r in {13, 15, 26, 30}
    ensures Below(r, LogTable(r).p1, LogTable(r).q1) && Above(r, LogTable(r).p2, LogTable(r).q2)
  {
    hide Below, Above, Pow;
    SmallPowers();
    Below13();
    Above13();
    Below15();
    Above15();
    if r == 13 {
      FromBase(13, 1, 0, 227, 840, 464, 1717, 13, LogTable(13));
    } else if r == 15 {
      FromBase(15, 1, 0, 290, 1133, 247, 965, 15, LogTable(15));
    } else if r == 26 {
      FromBase(13, 1, 1, 227, 840, 464, 1717, 26, LogTable(26));
    } else {
      FromBase(15, 1, 1, 290, 1133, 247, 965, 30, LogTable(30));
    }
  }

  lemma LogBoundsE(r: nat)
    requires r in {17, 19, 21, 34}
    ensures Below(r, LogTable(r).p1, LogTable(r).q1) && Above(r, LogTable(r).p2, LogTable(r).q2)
  {
    hide Below, Above, Pow;
    SmallPowers();
    Below17();
    Above17();
    Below19();
    Above19();
    Below21();
    Above21();
    if r == 17 {
      FromBase(17, 1, 0, 343, 1402, 263, 1075, 17, LogTable(17));
    } else if r == 19 {
      FromBase(19, 1, 0, 121, 514, 480, 2039, 19, LogTable(19));
    } else if r == 21 {
      FromBase(21, 1, 0, 339, 1489, 130, 571, 21, LogTable(21));
    } else {
      FromBase(17, 1, 1, 343, 1402, 263, 1075, 34, LogTable(34));
    }
  }

  lemma LogBoundsF(r: nat)
    requires r in {23, 29, 31}
    ensures Below(r, LogTable(r).p1, LogTable(r).q1) && Above(r, LogTable(r).p2, LogTable(r).q2)
  {
    hide Below, Above, Pow;
    SmallPowers();
    Below23();
    Above23();
    Below29();
    Above29();
    Below31();
    Above31();
    if r == 23 {
      FromBase(23, 1, 0, 403, 1823, 191, 864, 23, LogTable(23));
    } else if r == 29 {
      FromBase(29, 1, 0, 169, 821, 345, 1676, 29, LogTable(29));
    } else {
      FromBase(31, 1, 0, 131, 649, 371, 1838, 31, LogTable(31));
    }
  }

  lemma LogBoundsG(r: nat)
    requires r in {33, 35}
    ensures Below(r, LogTable(r).p1, LogTable(r).q1) && Above(r, LogTable(r).p2, LogTable(r).q2)
  {
    hide Below, Above, Pow;
    SmallPowers();
    Below33();
    Above33();
    Below35();
    Above35();
    if r == 33 {
      FromBase(33, 1, 0, 45, 227, 383, 1932, 33, LogTable(33));
    } else {
      FromBase(35, 1, 0, 379, 1944, 263, 1349, 35, LogTable(35));
    }
  }

  // ----- the exponent of a power of two in a radix -----

  /** What the proof needs of the fixed-point table: it lies strictly between two fractions
      that have no fraction of denominator up to 2048 between them. */
  lemma TableSeparated(radix: nat)
    requires 2 <= radix <= 36 && RadixBits(radix) == 0
    ensures var t := LogTable(radix); var mult := MulLog2RadixTable(radix);
            && t.p1 > 0 && t.p2 > 0 && mult > 0 && t.q1 + t.q2 > 2048
            && t.p2 * t.q1 - t.p1 * t.q2 == 1
            && t.p1 * 0x100_0000 < mult * t.q1
            && mult * t.q2 < t.p2 * 0x100_0000
  {
  }

  /** Between neighbouring fractions every fraction has a large denominator. */
  lemma NoFractionBetween(t: Bounds, j: int, n: int)
    requires t.p2 * t.q1 - t.p1 * t.q2 == 1
    requires n * t.p1 < j * t.q1 && j * t.q2 < n * t.p2
    ensures n >= t.q1 + t.q2
  {
    var x, y := n * t.p2 - j * t.q2, j * t.q1 - n * t.p1;
    assert t.q1 * x + t.q2 * y == n * (t.p2 * t.q1 - t.p1 * t.q2);
    MulGe(t.q1, 1, x);
    MulGe(t.q2, 1, y);
  }

  lemma ScaleLess(a: int, b: int, c: nat)
    requires a < b && c > 0
    ensures a * c < b * c
  {
  }

  lemma ScaleLeq(a: int, b: int, c: nat)
    requires a <= b
    ensures a * c <= b * c
  {
  }

  lemma Under(t: Bounds, mult: nat, x: int, n: nat)
    requires t.q1 + t.q2 > 2048 >= n > 0 && t.p2 * t.q1 - t.p1 * t.q2 == 1
    requires mult * t.q2 < t.p2 * 0x100_0000
    requires x * 0x100_0000 <= n * mult
    ensures x * t.q1 <= n * t.p1
  {
    ScaleLeq(x * 0x100_0000, n * mult, t.q2);
    ScaleLess(mult * t.q2, t.p2 * 0x100_0000, n);
    assert (x * t.q2) * 0x100_0000 < (n * t.p2) * 0x100_0000;
    if n * t.p1 < x * t.q1 {
      NoFractionBetween(t, x, n);
    }
  }

  lemma Over(t: Bounds, mult: nat, y: int, n: nat)
    requires t.q1 + t.q2 > 2048 >= n > 0 && t.p2 * t.q1 - t.p1 * t.q2 == 1
    requires t.p1 * 0x100_0000 < mult * t.q1
    requires y * 0x100_0000 >= n * mult
    ensures n * t.p2 <= y * t.q2
  {
    ScaleLeq(n * mult, y * 0x100_0000, t.q1);
    ScaleLess(t.p1 * 0x100_0000, mult * t.q1, n);
    assert (n * t.p1) * 0x100_0000 < (y * t.q1) * 0x100_0000;
    if y * t.q2 < n * t.p2 {
      NoFractionBetween(t, y, n);
    }
  }

  /** x <= n * mult / 2^24 <= y puts 2^n strictly between radix^x and radix^y. */
  lemma Bracket(radix: nat, x: int, n: nat, y: int)
    requires 2 <= radix <= 36 && RadixBits(radix) == 0 && 0 < n <= 2048
    requires 0 <= x && x * 0x100_0000 <= n * MulLog2RadixTable(radix) <= y * 0x100_0000
    ensures y > 0 && Pow(radix, x) < Pow(2, n) < Pow(radix, y)
  {
    hide Pow, LogTable, MulLog2RadixTable, RadixBits;
    var t, mult := LogTable(radix), MulLog2RadixTable(radix);
    TableSeparated(radix);
    LogBounds(radix);
    Under(t, mult, x, n);
    Over(t, mult, y, n);
    MulGe(n, 1, t.p2);
    assert y * t.q2 > 0;
    if y <= 0 {
      ScaleLeq(y, 0, t.q2);
    }
    if x > 0 {
      BelowScale(radix, t.p1, t.q1, x, n);
    } else {
      BelowZero(radix, n);
    }
    AboveScale(radix, t.p2, t.q2, y, n);
  }

  lemma BelowZero(b: nat, n: nat)
    requires n > 0
    ensures Pow(b, 0) < Pow(2, n)
  {
    PowMono(2, 1, n);
  }

  lemma NegatePowers(b: nat, c: nat, e: int, f: int)
    requires b > 0 && c > 0 && e >= 0 && f >= 0 && Pow(b, e) <= Pow(c, f)
    ensures RPow(c, -f) <= RPow(b, -e)
    ensures Pow(b, e) < Pow(c, f) ==> RPow(c, -f) < RPow(b, -e)
  {
    hide Pow, RPow;
    PositivePower(b, e);
    PositivePower(c, f);
    RPowInverse(b, e);
    RPowInverse(c, f);
    InverseMono(RPow(b, -e), RPow(c, -f), RPow(b, e), RPow(c, f));
  }

  lemma InverseMono(x: real, y: real, b: real, c: real)
    requires 0.0 < b <= c && 0.0 < x && 0.0 < y && b * x == 1.0 && c * y == 1.0
    ensures y <= x
    ensures b < c ==> y < x
  {
    assert x == (c * x) * y;
    MulCompare(x, b, c);
    MulCompare(y, 1.0, c * x);
  }

  /** mul_log2_radix returns floor(a / log2(radix)) on the whole range its comment promises. */
  lemma MulLog2RadixIsFloor(a: int, radix: nat)
    requires 2 <= radix <= 36 && -2048 <= a <= 2047
    ensures var k := MulLog2Radix(a, radix);
            RPow(radix, k) <= RPow(2, a) < RPow(radix, k + 1)
  {
    hide Pow, LogTable, MulLog2RadixTable, RPow;
    if RadixBits(radix) != 0 {
      PowerOfTwoRadix(a, radix);
    } else {
      var k := MulLog2Radix(a, radix);
      FloorBounds(a * MulLog2RadixTable(radix), k);
      if a > 0 {
        FloorNonNegative(a, MulLog2RadixTable(radix), k);
        Bracket(radix, k, a, k + 1);
        PositivePower(radix, k);
        PositivePower(radix, k + 1);
        PositivePower(2, a);
      } else if a == 0 {
        RPowZero(radix);
        RPowZero(2);
        RPowStep(radix, 0);
      } else {
        TableSeparated(radix);
        FloorNegative(-a, MulLog2RadixTable(radix), -k);
        Bracket(radix, -k - 1, -a, -k);
        NegatePowers(2, radix, -a, -k);
        NegatePowers(radix, 2, -k - 1, -a);
      }
    }
  }

  lemma FloorBounds(n: int, k: int)
    requires k == n / 0x100_0000
    ensures k * 0x100_0000 <= n < (k + 1) * 0x100_0000
  {
  }

  lemma FloorNonNegative(a: nat, mult: nat, k: int)
    requires a * mult < (k + 1) * 0x100_0000
    ensures k >= 0
  {
  }

  lemma FloorNegative(n: int, mult: int, j: int)
    requires n > 0 && mult > 0
    requires (-j) * 0x100_0000 <= (-n) * mult < (-j + 1) * 0x100_0000
    ensures (j - 1) * 0x100_0000 <= n * mult <= j * 0x100_0000 && j >= 1
  {
    assert (-n) * mult == -(n * mult);
    MulGe(n, 1, mult);
  }

  lemma PowerOfTwoRadix(a: int, radix: nat)
    requires 2 <= radix <= 36 && RadixBits(radix) != 0
    ensures var k := MulLog2Radix(a, radix);
            RPow(radix, k) <= RPow(2, a) < RPow(radix, k + 1)
  {
    hide RPow;
    var bits := RadixBits(radix);
    var k := MulLog2Radix(a, radix);
    RadixIsPower(radix);
    assert bits * k <= a < bits * (k + 1);
    RPowOfPow(2, bits, k, bits * k);
    RPowOfPow(2, bits, k + 1, bits * (k + 1));
    RPowMono(2, bits * k, a);
    RPowMono(2, a + 1, bits * (k + 1));
    RPowStep(2, a);
  }

  lemma RadixIsPower(radix: nat)
    requires RadixBits(radix) != 0
    ensures 1 <= RadixBits(radix) <= 5 && Pow(2, RadixBits(radix)) == radix
  {
    FastPowIsPow(2, RadixBits(radix));
  }

  // ----- comparing powers of a radix with powers of two -----

  /** radix^p <= 2^q, decided with integers. */
  lemma PowAtMost(radix: nat, p: nat, q: nat)
    requires 2 <= radix <= 36
    requires p * LogTable(radix).q1 <= q * LogTable(radix).p1
    ensures Pow(radix, p) <= Pow(2, q)
  {
    hide Pow, LogTable, RadixBits;
    var t := LogTable(radix);
    if p == 0 {
      BelowOne(radix, q);
    } else if RadixBits(radix) != 0 {
      RadixIsPower(radix);
      PowOfPow(2, t.q1, p);
      assert t.q1 * p == p * t.q1;
      PowerTable(radix);
      PowMono(2, t.q1 * p, q);
    } else {
      LogBounds(radix);
      TableSeparated(radix);
      BelowScale(radix, t.p1, t.q1, p, q);
    }
  }

  /** radix^p >= 2^q, decided with integers. */
  lemma PowAtLeast(radix: nat, p: nat, q: nat)
    requires 2 <= radix <= 36
    requires q * LogTable(radix).p2 <= p * LogTable(radix).q2
    ensures Pow(2, q) <= Pow(radix, p)
  {
    hide Pow, LogTable, RadixBits;
    var t := LogTable(radix);
    if RadixBits(radix) != 0 {
      RadixIsPower(radix);
      PowOfPow(2, t.q2, p);
      assert t.q2 * p == p * t.q2;
      PowerTable(radix);
      PowMono(2, q, t.q2 * p);
    } else {
      LogBounds(radix);
      TableSeparated(radix);
      if p == 0 {
        FactorZero(q, t.p2);
        BelowOne(radix, 0);
      } else {
        AboveScale(radix, t.p2, t.q2, p, q);
      }
    }
  }

  lemma FactorZero(x: nat, y: nat)
    requires x * y <= 0 && y > 0
    ensures x == 0
  {
  }

  lemma BelowOne(b: nat, q: nat)
    ensures Pow(b, 0) <= Pow(2, q)
    ensures Pow(b, 0) == Pow(2, 0)
  {
  }

  lemma PowerTable(radix: nat)
    requires 2 <= radix <= 36 && RadixBits(radix) != 0
    ensures LogTable(radix) == Bounds(1, RadixBits(radix), 1, RadixBits(radix))
  {
  }

  // ----- the digit tables -----

  /** How many digits a limb holds. */
  function DigitsPerLimb(radix: int): nat {
    match radix
    case 2 => 32 case 3 => 20 case 4 => 16 case 5 => 13 case 6 => 12 case 7 => 11 case 8 => 10 case 9 => 10 case 10 => 9
    case 11 => 9 case 12 => 8 case 13 => 8 case 14 => 8 case 15 => 8 case 16 => 8 case 17 => 7 case 18 => 7 case 19 => 7
    case 20 => 7 case 21 => 7 case 22 => 7 case 23 => 7 case 24 => 6 case 25 => 6 case 26 => 6 case 27 => 6 case 28 => 6
    case 29 => 6 case 30 => 6 case 31 => 6 case 32 => 6 case 33 => 6 case 34 => 6 case 35 => 6 case 36 => 6
    case _ => 0
  }

  /** radix^DigitsPerLimb(radix), where 0 stands for 2^32. */
  function RadixBase(radix: int): nat {
    match radix
    case 2 => 0x0 case 3 => 0xcfd41b91 case 4 => 0x0 case 5 => 0x48c27395 case 6 => 0x81bf1000 case 7 => 0x75db9c97
    case 8 => 0x40000000 case 9 => 0xcfd41b91 case 10 => 0x3b9aca00 case 11 => 0x8c8b6d2b case 12 => 0x19a10000 case 13 => 0x309f1021
    case 14 => 0x57f6c100 case 15 => 0x98c29b81 case 16 => 0x0 case 17 => 0x18754571 case 18 => 0x247dbc80 case 19 => 0x3547667b
    case 20 => 0x4c4b4000 case 21 => 0x6b5a6e1d case 22 => 0x94ace180 case 23 => 0xcaf18367 case 24 => 0xb640000 case 25 => 0xe8d4a51
    case 26 => 0x1269ae40 case 27 => 0x17179149 case 28 => 0x1cb91000 case 29 => 0x23744899 case 30 => 0x2b73a840 case 31 => 0x34e63b41
    case 32 => 0x40000000 case 33 => 0x4cfa3cc1 case 34 => 0x5c13d840 case 35 => 0x6d91b519 case 36 => 0x81bf1000
    case _ => 0x0
  }

  /** Digits that always suffice to print a float64. */
  function DtoaMaxDigits(radix: int): nat {
    match radix
    case 2 => 54 case 3 => 35 case 4 => 28 case 5 => 24 case 6 => 22 case 7 => 20 case 8 => 19 case 9 => 18 case 10 => 17
    case 11 => 17 case 12 => 16 case 13 => 16 case 14 => 15 case 15 => 15 case 16 => 15 case 17 => 14 case 18 => 14 case 19 => 14
    case 20 => 14 case 21 => 14 case 22 => 13 case 23 => 13 case 24 => 13 case 25 => 13 case 26 => 13 case 27 => 13 case 28 => 13
    case 29 => 12 case 30 => 12 case 31 => 12 case 32 => 12 case 33 => 12 case 34 => 12 case 35 => 12 case 36 => 12
    case _ => 0
  }

  /** Significant digits the parser keeps. */
  function AtodMaxDigits(radix: int): nat {
    match radix
    case 2 => 64 case 3 => 80 case 4 => 32 case 5 => 55 case 6 => 49 case 7 => 45 case 8 => 21 case 9 => 40 case 10 => 38
    case 11 => 37 case 12 => 35 case 13 => 34 case 14 => 33 case 15 => 32 case 16 => 16 case 17 => 31 case 18 => 30 case 19 => 30
    case 20 => 29 case 21 => 29 case 22 => 28 case 23 => 28 case 24 => 27 case 25 => 27 case 26 => 27 case 27 => 26 case 28 => 26
    case 29 => 26 case 30 => 26 case 31 => 25 case 32 => 12 case 33 => 25 case 34 => 25 case 35 => 24 case 36 => 24
    case _ => 0
  }

  /** From radix^MaxExponent on, a number overflows. */
  function MaxExponent(radix: int): nat {
    match radix
    case 2 => 1024 case 3 => 647 case 4 => 512 case 5 => 442 case 6 => 397 case 7 => 365 case 8 => 342
    case 9 => 324 case 10 => 309 case 11 => 297 case 12 => 286 case 13 => 277 case 14 => 269 case 15 => 263
    case 16 => 256 case 17 => 251 case 18 => 246 case 19 => 242 case 20 => 237 case 21 => 234 case 22 => 230
    case 23 => 227 case 24 => 224 case 25 => 221 case 26 => 218 case 27 => 216 case 28 => 214 case 29 => 211
    case 30 => 209 case 31 => 207 case 32 => 205 case 33 => 203 case 34 => 202 case 35 => 200 case 36 => 199
    case _ => 0
  }

  /** Up to radix^MinExponent, a number underflows. */
  function MinExponent(radix: int): int {
    match radix
    case 2 => -1075 case 3 => -679 case 4 => -538 case 5 => -463 case 6 => -416 case 7 => -383 case 8 => -359
    case 9 => -340 case 10 => -324 case 11 => -311 case 12 => -300 case 13 => -291 case 14 => -283 case 15 => -276
    case 16 => -269 case 17 => -263 case 18 => -258 case 19 => -254 case 20 => -249 case 21 => -245 case 22 => -242
    case 23 => -238 case 24 => -235 case 25 => -232 case 26 => -229 case 27 => -227 case 28 => -224 case 29 => -222
    case 30 => -220 case 31 => -217 case 32 => -215 case 33 => -214 case 34 => -212 case 35 => -210 case 36 => -208
    case _ => 0
  }

  /** The tables hold what their comments say. */
  lemma DigitTables(radix: nat)
    requires 2 <= radix <= 36
    ensures DigitsPerLimb(radix) >= 1 && Pow(2, 27) <= Pow(radix, DigitsPerLimb(radix)) <= 0x1_0000_0000
    ensures DtoaMaxDigits(radix) >= 1 && AtodMaxDigits(radix) >= 1
    ensures Pow(radix, DtoaMaxDigits(radix) - 1) >= Pow(2, 53)
    ensures Pow(radix, 2 * DtoaMaxDigits(radix)) <= Pow(2, 125)
    ensures Pow(radix, AtodMaxDigits(radix)) <= Pow(2, 128)
  {
    hide Pow, DigitsPerLimb, DtoaMaxDigits, AtodMaxDigits, LogTable;
    DigitInequalities(radix);
    PowAtMost(radix, DigitsPerLimb(radix), 32);
    PowAtLeast(radix, DigitsPerLimb(radix), 27);
    PowAtLeast(radix, DtoaMaxDigits(radix) - 1, 53);
    PowAtMost(radix, 2 * DtoaMaxDigits(radix), 125);
    PowAtMost(radix, AtodMaxDigits(radix), 128);
    TwoTo32();
  }

  lemma TwoTo32()
    ensures Pow(2, 32) == 0x1_0000_0000
  {
    FastPowIsPow(2, 32);
    assert FastPow(2, 32) == 0x1_0000_0000;
  }

  lemma DigitInequalities(radix: nat)
    requires 2 <= radix <= 36
    ensures var t := LogTable(radix);
            && DigitsPerLimb(radix) >= 1 && DigitsPerLimb(radix) * t.q1 <= 32 * t.p1
            && 27 * t.p2 <= DigitsPerLimb(radix) * t.q2
            && DtoaMaxDigits(radix) >= 1 && 53 * t.p2 <= (DtoaMaxDigits(radix) - 1) * t.q2
            && 2 * DtoaMaxDigits(radix) * t.q1 <= 125 * t.p1
            && AtodMaxDigits(radix) >= 1 && AtodMaxDigits(radix) * t.q1 <= 128 * t.p1
  {
  }

  /** And the last two no more than they say: one printed digit less does not always suffice, one kept digit more
      does not always fit. */
  lemma DigitTablesTight(radix: nat)
    requires 2 <= radix <= 36
    ensures DtoaMaxDigits(radix) >= 2 && Pow(radix, DtoaMaxDigits(radix) - 2) < Pow(2, 53)
    ensures RadixBits(radix) == 0 ==> Pow(2, 128) <= Pow(radix, AtodMaxDigits(radix) + 1)
    ensures RadixBits(radix) != 0 ==> AtodMaxDigits(radix) == 64 / RadixBits(radix)
  {
    hide Pow, DtoaMaxDigits, AtodMaxDigits, LogTable, RadixBits;
    TightInequalities(radix);
    var k := DtoaMaxDigits(radix) - 2;
    PowAtMost(radix, 9 * k, 476);
    PowOfPow(radix, k, 9);
    PowOfPow(2, 53, 9);
    PowAdd(2, 476, 1);
    SmallPowers();
    PowPositive(2, 476);
    if Pow(radix, k) >= Pow(2, 53) {
      PowBaseMono(Pow(2, 53), Pow(radix, k), 9);
    }
    if RadixBits(radix) == 0 {
      PowAtLeast(radix, AtodMaxDigits(radix) + 1, 128);
    }
  }

  lemma TightInequalities(radix: nat)
    requires 2 <= radix <= 36
    ensures DtoaMaxDigits(radix) >= 2 && 9 * (DtoaMaxDigits(radix) - 2) * LogTable(radix).q1 <= 476 * LogTable(radix).p1
    ensures RadixBits(radix) == 0 ==> 128 * LogTable(radix).p2 <= (AtodMaxDigits(radix) + 1) * LogTable(radix).q2
    ensures RadixBits(radix) != 0 ==> AtodMaxDigits(radix) == 64 / RadixBits(radix)
  {
  }

  /** A number of at least radix^MaxExponent overflows, one of at most radix^MinExponent is
      at most half the smallest subnormal. */
  lemma ExponentTables(radix: nat)
    requires 2 <= radix <= 36
    ensures Pow(2, 1024) <= Pow(radix, MaxExponent(radix)) <= Pow(2, 1034)
    ensures MinExponent(radix) <= 0
    ensures Pow(2, 1075) <= Pow(radix, -MinExponent(radix)) <= Pow(2, 1081)
  {
    hide Pow, MaxExponent, MinExponent, LogTable;
    MaxInequalities(radix);
    MaxNotTooLarge(radix);
    MinInequalities(radix);
    PowAtLeast(radix, MaxExponent(radix), 1024);
    PowAtMost(radix, MaxExponent(radix), 1034);
    PowAtLeast(radix, -MinExponent(radix), 1075);
    PowAtMost(radix, -MinExponent(radix), 1081);
  }

  lemma MaxInequalities(radix: nat)
    requires 2 <= radix <= 36
    ensures 1024 * LogTable(radix).p2 <= MaxExponent(radix) * LogTable(radix).q2
  {
  }

  lemma MaxNotTooLarge(radix: nat)
    requires 2 <= radix <= 36
    ensures MaxExponent(radix) * LogTable(radix).q1 <= 1034 * LogTable(radix).p1
  {
  }

  lemma MinInequalities(radix: nat)
    requires 2 <= radix <= 36
    ensures var t := LogTable(radix);
            && MinExponent(radix) <= 0
            && 1075 * t.p2 <= -MinExponent(radix) * t.q2
            && -MinExponent(radix) * t.q1 <= 1081 * t.p1
  {
  }
}
