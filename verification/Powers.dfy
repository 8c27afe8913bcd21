/** Small integer powers of a radix, as 64-bit and as normalised 32-bit words. */
module Powers {
  import opened Arith
  import opened Limbs
  import opened Reciprocal
  import opened Bignum

  function Pow5Table(b: int): nat {
    match b
    case 1 => 0x00000005 case 2 => 0x00000019 case 3 => 0x0000007d case 4 => 0x00000271 case 5 => 0x00000c35
    case 6 => 0x00003d09 case 7 => 0x0001312d case 8 => 0x0005f5e1 case 9 => 0x001dcd65 case 10 => 0x009502f9
    case 11 => 0x02e90edd case 12 => 0x0e8d4a51 case 13 => 0x48c27395 case 14 => 0x6bcc41e9 case 15 => 0x1afd498d
    case 16 => 0x86f26fc1 case 17 => 0xa2bc2ec5
    case _ => 0
  }

  /** High words of the last entries. */
  function Pow5hTable(b: int): nat {
    match b
    case 14 => 0x01 case 15 => 0x07 case 16 => 0x23 case 17 => 0xb1
    case _ => 0
  }

  function Pow5InvTable(b: int): Limb {
    match b
    case 1 => 0x99999999 case 2 => 0x47ae147a case 3 => 0x0624dd2f case 4 => 0xa36e2eb1 case 5 => 0x4f8b588e
    case 6 => 0x0c6f7a0b case 7 => 0xad7f29ab case 8 => 0x5798ee23 case 9 => 0x12e0be82 case 10 => 0xb7cdfd9d
    case 11 => 0x5fd7fe17 case 12 => 0x19799812 case 13 => 0xc25c2684
    case _ => 0
  }

  lemma {:induction false} Pow5TableIsExact(b: nat)
    requires 1 <= b <= 17
    ensures Pow5Table(b) + BASE * Pow5hTable(b) == Pow(5, b)
  {
    if b > 1 {
      Pow5TableIsExact(b - 1);
    } else {
      assert Pow(5, 1) == 5 * Pow(5, 0);
    }
  }

  /** The leading zero bits of a limb, and the limb without them. */
  function Clz32(v: Limb): (k: nat)
    requires v > 0
    ensures k < 32 && 0x8000_0000 <= v * Pow(2, k) < BASE
  {
    NormaliseShift(v, TopBit(v));
    31 - TopBit(v)
  }

  lemma NormaliseShift(v: nat, t: nat)
    requires t < 32 && Pow(2, t) <= v < Pow(2, t + 1)
    ensures 0x8000_0000 <= v * Pow(2, 31 - t) < BASE
  {
    hide Pow;
    BaseIsPow2();
    TwoTo31();
    PowAdd(2, t, 31 - t);
    PowAdd(2, t + 1, 31 - t);
    ShiftBounds(v, Pow(2, t), Pow(2, t + 1), Pow(2, 31 - t));
  }

  lemma ShiftBounds(v: nat, lo: nat, hi: nat, c: nat)
    requires lo <= v < hi && c > 0
    ensures lo * c <= v * c < hi * c
  {
  }

  lemma TwoTo31()
    ensures Pow(2, 31) == 0x8000_0000
  {
    FastPowIsPow(2, 31);
    assert FastPow(2, 31) == 0x8000_0000;
  }

  /** b's quotient by 2^i, from its quotient by 2^(i+1) and bit i. */
  lemma NextBit(b: nat, i: nat)
    ensures b / Pow(2, i) == 2 * (b / Pow(2, i + 1)) + Bit(b, i)
  {
    var p := Pow(2, i);
    assert Pow(2, i + 1) == 2 * p == p * 2;
    NestedDivision(b, p, 2);
  }

  lemma SquareStep(a: nat, q: nat, bit: nat)
    requires bit <= 1
    ensures Pow(a, 2 * q + bit) == Pow(a, q) * Pow(a, q) * (if bit == 1 then a else 1)
  {
    PowAdd(a, q, q);
    if bit == 1 {
      PowAdd(a, 2 * q, 1);
    }
  }

  /** The table branch of pow_ui. */
  function Pow5Words(b: nat): (r: nat)
    requires 1 <= b <= 17
    ensures r == Pow(5, b)
  {
    Pow5TableIsExact(b);
    if b >= 14 then Pow5Table(b) + BASE * Pow5hTable(b) else Pow5Table(b)
  }

  lemma PowOne(a: nat)
    ensures Pow(a, 0) == 1 && Pow(a, 1) == a
  {
    assert Pow(a, 1) == a * Pow(a, 0);
  }

  /** pow_ui: a^b in 64 bits; nothing wraps when the power fits. */
  method PowUi(a: nat, b: nat) returns (r: nat)
    requires 1 <= a < BASE && b < BASE && Pow(a, b) < DBASE
    ensures r == Pow(a, b)
  {
    hide Pow, Pow5Words, Wrap64;
    PowOne(a);
    if b == 0 {
      return 1;
    }
    if b == 1 {
      return a;
    }
    if (a == 5 || a == 10) && b <= 17 {
      r := Pow5Words(b);
      if a == 10 {
        PowOfProduct(5, 2, b);
        r := Wrap64(r * Pow(2, b));
      }
      return;
    }
    r := PowUiLoop(a, b);
  }

  /** b >> i */
  function Shr(b: nat, i: nat): nat {
    b / Pow(2, i)
  }

  /** The square-and-multiply loop of pow_ui, from the bit below the highest. */
  method PowUiLoop(a: nat, b: nat) returns (r: nat)
    requires 1 <= a < BASE && 0 < b < BASE && Pow(a, b) < DBASE
    ensures r == Pow(a, b)
  {
    hide Pow, Wrap64, Shr;
    r := a;
    var i: int := TopBit(b) - 1;
    TopQuotient(b, TopBit(b), a);
    while i >= 0
      invariant -1 <= i < 32
      invariant r == Pow(a, Shr(b, i + 1))
      decreases i + 1
    {
      SquareAndMultiply(a, b, i, r);
      r := Wrap64(r * r);
      if Shr(b, i) % 2 == 1 {
        r := Wrap64(r * a);
      }
      i := i - 1;
    }
    ShrZero(b);
  }

  lemma SquareAndMultiply(a: nat, b: nat, i: nat, r: nat)
    requires a >= 1 && Pow(a, b) < DBASE && r == Pow(a, Shr(b, i + 1))
    ensures r * r < DBASE
    ensures Shr(b, i) % 2 == 1 ==> r * r * a == Pow(a, Shr(b, i)) < DBASE
    ensures Shr(b, i) % 2 == 0 ==> r * r == Pow(a, Shr(b, i))
  {
    hide Pow;
    NextBit(b, i);
    var q := Shr(b, i + 1);
    SquareStep(a, q, 0);
    SquareStep(a, q, 1);
    QuotientSmaller(b, Pow(2, i));
    PowMono(a, 2 * q, b);
    PowMono(a, Shr(b, i), b);
  }

  lemma ShrZero(b: nat)
    ensures Shr(b, 0) == b
  {
  }

  lemma TopQuotient(b: nat, t: nat, a: nat)
    requires Pow(2, t) <= b < Pow(2, t + 1)
    ensures a == Pow(a, Shr(b, t))
  {
    var p := Pow(2, t);
    DivUnique(b, p, 1, b - p);
    PowOne(a);
  }

  lemma DoubledFactor(v: nat, c: nat, k: nat)
    requires c < k
    ensures 2 * (v * Pow(2, c)) <= v * Pow(2, k)
  {
    hide Pow;
    PowMono(2, c + 1, k);
    PowDouble(c);
    DoubleStep(v, Pow(2, c), Pow(2, k));
  }

  lemma PowDouble(c: nat)
    ensures Pow(2, c + 1) == 2 * Pow(2, c)
  {
  }

  lemma DoubleStep(v: nat, x: nat, y: nat)
    requires 2 * x <= y
    ensures 2 * (v * x) <= v * y
  {
    MulGe(v, 2 * x, y);
  }

  lemma ClzUnique(v: Limb, k: nat)
    requires v > 0 && k < 32 && 0x8000_0000 <= v * Pow(2, k) < BASE
    ensures Clz32(v) == k
  {
    hide Pow, Clz32;
    var c := Clz32(v);
    if c < k {
      DoubledFactor(v, c, k);
    } else if k < c {
      DoubledFactor(v, k, c);
    }
  }

  lemma InverseUnique(d: NormLimb, t: Limb)
    requires (t + BASE) * d <= DBASE - 1 < (t + BASE) * d + d
    ensures Udiv1NormInit(d) == t
  {
    hide Udiv1NormInit;
    var u := Udiv1NormInit(d);
    DivUnique(DBASE - 1, d, t + BASE, DBASE - 1 - (t + BASE) * d);
    DivUnique(DBASE - 1, d, u + BASE, DBASE - 1 - (u + BASE) * d);
  }

  lemma InverseEntry(b: int, v: Limb, k: nat, d: NormLimb, t: Limb)
    requires Pow5Table(b) == v && Pow5InvTable(b) == t
    requires v > 0 && k < 32 && d == v * FastPow(2, k)
    requires (t + BASE) * d <= DBASE - 1 < (t + BASE) * d + d
    ensures InverseIsExact(b)
  {
    hide Pow, Clz32, Udiv1NormInit;
    FastPowIsPow(2, k);
    ClzUnique(v, k);
    InverseUnique(d, t);
  }

  ghost predicate InverseIsExact(b: int) {
    var v := Pow5Table(b);
    0 < v < BASE && 0x8000_0000 <= v * Pow(2, Clz32(v)) < BASE &&
    Pow5InvTable(b) == Udiv1NormInit(v * Pow(2, Clz32(v)))
  }

  /** The precomputed reciprocals are those udiv1norm_init would compute. */
  lemma Pow5InvTableIsExact(b: nat)
    requires 1 <= b <= 13
    ensures InverseIsExact(b)
  {
    hide InverseIsExact;
    if b <= 7 {
      LowEntries(b);
    } else {
      HighEntries(b);
    }
  }

  lemma LowEntries(b: nat)
    requires 1 <= b <= 7
    ensures InverseIsExact(b)
  {
    hide Pow, Clz32, Udiv1NormInit, InverseIsExact;
    match b
    case 1 => InverseEntry(1, 0x5, 29, 0xa0000000, 0x99999999);
    case 2 => InverseEntry(2, 0x19, 27, 0xc8000000, 0x47ae147a);
    case 3 => InverseEntry(3, 0x7d, 25, 0xfa000000, 0x624dd2f);
    case 4 => InverseEntry(4, 0x271, 22, 0x9c400000, 0xa36e2eb1);
    case 5 => InverseEntry(5, 0xc35, 20, 0xc3500000, 0x4f8b588e);
    case 6 => InverseEntry(6, 0x3d09, 18, 0xf4240000, 0xc6f7a0b);
    case 7 => InverseEntry(7, 0x1312d, 15, 0x98968000, 0xad7f29ab);
  }

  lemma HighEntries(b: nat)
    requires 8 <= b <= 13
    ensures InverseIsExact(b)
  {
    hide Pow, Clz32, Udiv1NormInit, InverseIsExact;
    match b
    case 8 => InverseEntry(8, 0x5f5e1, 13, 0xbebc2000, 0x5798ee23);
    case 9 => InverseEntry(9, 0x1dcd65, 11, 0xee6b2800, 0x12e0be82);
    case 10 => InverseEntry(10, 0x9502f9, 8, 0x9502f900, 0xb7cdfd9d);
    case 11 => InverseEntry(11, 0x2e90edd, 6, 0xba43b740, 0x5fd7fe17);
    case 12 => InverseEntry(12, 0xe8d4a51, 4, 0xe8d4a510, 0x19799812);
    case 13 => InverseEntry(13, 0x48c27395, 1, 0x9184e72a, 0xc25c2684);
  }

  /** pow_ui_inv: a^b shifted up until its top bit is set, the shift, and the reciprocal. */
  method PowUiInv(a: nat, b: nat) returns (r: NormLimb, inv: Limb, shift: nat)
    requires 1 <= a < BASE && b < BASE && Pow(a, b) < BASE
    ensures shift < 32 && r == Pow(a, b) * Pow(2, shift)
    ensures inv == Udiv1NormInit(r)
  {
    hide Pow, Clz32, Udiv1NormInit;
    if a == 5 && 1 <= b <= 13 {
      Pow5TableIsExact(b);
      Pow5InvTableIsExact(b);
      var v := Pow5Table(b);
      shift := Clz32(v);
      r := v * Pow(2, shift);
      inv := Pow5InvTable(b);
    } else {
      var v := PowUi(a, b);
      shift := Clz32(v);
      r := v * Pow(2, shift);
      inv := Udiv1NormInit(r);
    }
  }
}
