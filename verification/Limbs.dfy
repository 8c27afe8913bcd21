/** Multi-precision arithmetic on little-endian arrays of 32-bit limbs.

    The C functions take a destination and a source pointer. Their callers pass the
    same array for both, and but for MpShl, whose two arrays matter to mp_div1norm,
    the methods here work in place. Machine words are mathematical integers with the
    wrap-around written out, and `|` of two words that share no bit is written `+`. */
module Limbs {
  import opened Arith

  const BASE: nat := 0x1_0000_0000
  const DBASE: nat := 0x1_0000_0000_0000_0000

  type Limb = x: int | 0 <= x < 0x1_0000_0000

  /** The number a limb sequence stands for. */
  ghost function Val(s: seq<Limb>): nat {
    if |s| == 0 then 0 else s[0] + BASE * Val(s[1..])
  }

  lemma {:induction false} ValAppend(s: seq<Limb>, t: seq<Limb>)
    ensures Val(s + t) == Val(s) + Pow(BASE, |s|) * Val(t)
  {
    if |s| == 0 {
      assert s + t == t;
    } else {
      ValAppend(s[1..], t);
      assert (s + t)[1..] == s[1..] + t;
      assert BASE * (Val(s[1..]) + Pow(BASE, |s| - 1) * Val(t))
          == BASE * Val(s[1..]) + (BASE * Pow(BASE, |s| - 1)) * Val(t);
    }
  }

  lemma ValSnoc(s: seq<Limb>, x: Limb)
    ensures Val(s + [x]) == Val(s) + Pow(BASE, |s|) * x
  {
    ValAppend(s, [x]);
    assert Val([x]) == x;
  }

  lemma {:induction false} ValBound(s: seq<Limb>)
    ensures Val(s) < Pow(BASE, |s|)
  {
    if |s| == 0 {
    } else {
      ValBound(s[1..]);
      MulGe(BASE, Val(s[1..]) + 1, Pow(BASE, |s| - 1));
    }
  }

  lemma {:induction false} ValZeros(s: seq<Limb>)
    requires forall i :: 0 <= i < |s| ==> s[i] == 0
    ensures Val(s) == 0
  {
    if |s| == 0 {
    } else {
      ValZeros(s[1..]);
    }
  }

  lemma {:induction false} ValZeroAll(s: seq<Limb>)
    requires Val(s) == 0
    ensures forall i :: 0 <= i < |s| ==> s[i] == 0
  {
    if |s| == 0 {
    } else {
      ValZeroAll(s[1..]);
      assert forall i :: 1 <= i < |s| ==> s[i] == s[1..][i - 1];
    }
  }

  // ----- carries from the low end -----

  /** One step of a carry loop: the limb at weight p is replaced by the low half
      of x * b + h and the high half is carried on. */
  lemma CarryStep(v: nat, v': nat, p: nat, x: nat, b: nat, h: nat, lo: nat, hi: nat, l: nat)
    requires v' + p * h == v * b + l
    requires x * b + h == lo + BASE * hi
    ensures (v' + p * lo) + (BASE * p) * hi == (v + p * x) * b + l
  {
    assert p * (x * b + h) == p * (lo + BASE * hi);
    assert p * (x * b) == (p * x) * b;
    assert p * (BASE * hi) == (BASE * p) * hi;
    assert (v + p * x) * b == v * b + (p * x) * b;
  }

  lemma Snoc(s: seq<Limb>, i: nat)
    requires i < |s|
    ensures s[..i + 1] == s[..i] + [s[i]]
    ensures Val(s[..i + 1]) == Val(s[..i]) + Pow(BASE, i) * s[i]
    ensures Pow(BASE, i + 1) == BASE * Pow(BASE, i)
  {
    assert s[..i + 1] == s[..i] + [s[i]];
    ValSnoc(s[..i], s[i]);
  }

  method MpAddUi(tab: array<Limb>, b: Limb, n: nat) returns (k: Limb)
    requires n <= tab.Length
    modifies tab
    ensures Val(tab[..n]) + Pow(BASE, n) * k == old(Val(tab[..n])) + b
    ensures tab[n..] == old(tab[n..])
  {
    assert Pow(BASE, 0) == 1;
    hide Pow;
    ghost var s := tab[..];
    k := b;
    var i := 0;
    while i < n && k != 0
      invariant i <= n
      invariant tab[i..] == s[i..]
      invariant Val(tab[..i]) + Pow(BASE, i) * k == Val(s[..i]) + b
    {
      var a := (tab[i] + k) % BASE;
      var k' := if a < k then 1 else 0;
      assert s[i] == tab[i];
      CarryStep(Val(s[..i]), Val(tab[..i]), Pow(BASE, i), s[i], 1, k, a, k', b);
      Snoc(s, i);
      k := k';
      ghost var t := tab[..];
      tab[i] := a;
      assert tab[..i] == t[..i];
      Snoc(tab[..], i);
      assert tab[..][..i] == tab[..i] && tab[..][..i + 1] == tab[..i + 1];
      i := i + 1;
    }
    if i < n {
      assert s[..n] == s[..i] + s[i..n] && tab[..n] == tab[..i] + tab[i..n] && tab[i..n] == s[i..n];
      ValAppend(s[..i], s[i..n]);
      ValAppend(tab[..i], tab[i..n]);
    }
    assert tab[..n] == tab[..][..n];
  }

  /** High limb of the double-word product x * b + h. */
  function MulHigh(x: Limb, b: Limb, h: Limb): Limb {
    ProductFits(x, b, h);
    (x * b + h) / BASE
  }

  /** Low limb of the double-word product x * b + h. */
  function MulLow(x: Limb, b: Limb, h: Limb): (lo: Limb)
    ensures x * b + h == lo + BASE * MulHigh(x, b, h)
  {
    ProductFits(x, b, h);
    (x * b + h) % BASE
  }

  /** tab = tab * b + l; the high limb is returned. */
  method MpMul1(tab: array<Limb>, n: nat, b: Limb, l: Limb) returns (h: Limb)
    requires n <= tab.Length
    modifies tab
    ensures Val(tab[..n]) + Pow(BASE, n) * h == old(Val(tab[..n])) * b + l
    ensures tab[n..] == old(tab[n..])
  {
    assert Pow(BASE, 0) == 1;
    hide Pow, MulHigh, MulLow;
    ghost var s := tab[..];
    h := l;
    for i := 0 to n
      invariant tab[i..] == s[i..]
      invariant Val(tab[..i]) + Pow(BASE, i) * h == Val(s[..i]) * b + l
    {
      var a := tab[i];
      assert a == s[i];
      var lo := MulLow(a, b, h);
      CarryStep(Val(s[..i]), Val(tab[..i]), Pow(BASE, i), a, b, h, lo, MulHigh(a, b, h), l);
      Snoc(s, i);
      ghost var u := tab[..];
      tab[i] := lo;
      h := MulHigh(a, b, h);
      assert tab[..i] == u[..i];
      Snoc(tab[..], i);
      assert tab[..][..i] == tab[..i] && tab[..][..i + 1] == tab[..i + 1];
    }
    assert s[..n] == old(tab[..n]);
  }

  lemma ProductBound(x: nat, b: nat, h: nat, m: nat)
    requires x <= m && b <= m && h <= m
    ensures x * b + h <= m * m + m
  {
    MulMono(x, m, b, m);
  }

  lemma ProductFits(x: Limb, b: Limb, h: Limb)
    ensures 0 <= x * b + h < DBASE
    ensures 0 <= (x * b + h) / BASE < BASE
  {
    ProductBound(x, b, h, 0xFFFF_FFFF);
    QuotientFits(x * b + h);
  }

  lemma QuotientFits(t: nat)
    requires t < DBASE
    ensures 0 <= t / BASE < BASE
  {
  }

  // ----- shifts -----

  /** A shift count strictly inside a limb. */
  type Shift = k: int | 1 <= k < 32 witness 1

  lemma {:induction false} LimbSplit(k: Shift)
    ensures Pow(2, k) * Pow(2, 32 - k) == BASE
    ensures 1 < Pow(2, k) < BASE
  {
    PowAdd(2, k, 32 - k);
    FastPowIsPow(2, 32);
    assert FastPow(2, 32) == BASE;
    PowMono(2, 1, k);
    PowMono(2, 1, 32 - k);
    MulGe(Pow(2, k), 2, Pow(2, 32 - k));
  }

  /** Shifting a limb left by one part of the word, seen as a multiplication: the
      shifted limb and the incoming bits l share no bit. */
  lemma ShiftLeftLimb(a: Limb, p: nat, q: nat, l: nat)
    requires p * q == BASE && l < p
    ensures q > 0 && a * p + l == (a * p % BASE + l) + BASE * (a / q)
    ensures a * p % BASE % p == 0
    ensures a * p % BASE + l < BASE
    ensures a / q < p
  {
    assert q > 0;
    var h, m := a / q, a % q;
    assert a == h * q + m;
    assert a * p == h * BASE + m * p by {
      assert (h * q + m) * p == h * (p * q) + m * p;
    }
    assert m * p + p <= BASE by { MulGe(p, m + 1, q); }
    DivUnique(a * p, BASE, h, m * p);
    DivUnique(m * p, p, m, 0);
    DivLess(a, q, p);
  }

  /** The limb `(a << shift) | l`. */
  function ShlWord(a: Limb, l: Limb, shift: Shift): (w: Limb)
    requires l < Pow(2, shift)
    ensures a * Pow(2, shift) + l == w + BASE * ShlCarry(a, shift)
  {
    LimbSplit(shift);
    ShiftLeftLimb(a, Pow(2, shift), Pow(2, 32 - shift), l);
    a * Pow(2, shift) % BASE + l
  }

  /** The limb `a >> (32 - shift)`. */
  function ShlCarry(a: Limb, shift: Shift): (w: Limb)
    ensures w < Pow(2, shift)
  {
    LimbSplit(shift);
    ShiftLeftLimb(a, Pow(2, shift), Pow(2, 32 - shift), 0);
    a / Pow(2, 32 - shift)
  }

  /** tabR = tab * 2^shift + low; the bits shifted out are returned. The two arrays may be the same. */
  method MpShl(tabR: array<Limb>, tab: array<Limb>, n: nat, shift: Shift, low: Limb) returns (l: Limb)
    requires n <= tab.Length && n <= tabR.Length && low < Pow(2, shift)
    modifies tabR
    ensures Val(tabR[..n]) + Pow(BASE, n) * l == old(Val(tab[..n])) * Pow(2, shift) + low
    ensures l < Pow(2, shift)
    ensures tabR[n..] == old(tabR[n..])
  {
    assert Pow(BASE, 0) == 1;
    hide ShlWord, ShlCarry, Pow;
    ghost var s, t := tab[..], tabR[..];
    l := low;
    for i := 0 to n
      invariant tab[i..] == s[i..] && tabR[i..] == t[i..]
      invariant l < Pow(2, shift)
      invariant Val(tabR[..i]) + Pow(BASE, i) * l == Val(s[..i]) * Pow(2, shift) + low
    {
      var a := tab[i];
      assert a == s[i];
      var w := ShlWord(a, l, shift);
      CarryStep(Val(s[..i]), Val(tabR[..i]), Pow(BASE, i), a, Pow(2, shift), l, w, ShlCarry(a, shift), low);
      Snoc(s, i);
      ghost var u := tabR[..];
      tabR[i] := w;
      l := ShlCarry(a, shift);
      assert tabR[..i] == u[..i];
      Snoc(tabR[..], i);
      assert tabR[..][..i] == tabR[..i] && tabR[..][..i + 1] == tabR[..i + 1];
    }
    assert s[..n] == old(tab[..n]);
  }

  lemma ShiftRightLimb(a: Limb, p: nat, q: nat, l: Limb)
    requires p * q == BASE
    ensures q > 0 && p > 0 && a / p + l * q % BASE < BASE
    ensures l % p * BASE + a == (a / p + l * q % BASE) * p + a % p
  {
    assert q > 0 && p > 0;
    var h, m := l / p, l % p;
    assert l == h * p + m;
    assert l * q == h * BASE + m * q by {
      assert (h * p + m) * q == h * (p * q) + m * q;
    }
    assert m * q + q <= BASE by { MulGe(q, m + 1, p); }
    DivUnique(l * q, BASE, h, m * q);
    DivLess(a, p, q);
    assert (a / p + m * q) * p == (a / p) * p + m * (p * q);
  }

  /** a & ((1 << k) - 1) */
  function LowBits(a: nat, k: nat): (r: nat)
    ensures r < Pow(2, k)
  {
    a % Pow(2, k)
  }

  /** The limb `(a >> shift) | (l << (32 - shift))`: l's low bits over a's high bits. */
  function ShrWord(a: Limb, l: Limb, shift: Shift): (w: Limb)
    ensures LowBits(l, shift) * BASE + a == w * Pow(2, shift) + LowBits(a, shift)
  {
    LimbSplit(shift);
    ShiftRightLimb(a, Pow(2, shift), Pow(2, 32 - shift), l);
    a / Pow(2, shift) + l * Pow(2, 32 - shift) % BASE
  }

  lemma DivStep(a: Limb, b: nat, w: nat, v: nat, r: nat, q: nat, r': nat)
    requires w == v * b + r
    requires r * BASE + a == q * b + r'
    ensures a + BASE * w == (q + BASE * v) * b + r'
  {
    assert BASE * (v * b) == (BASE * v) * b;
  }

  lemma Cons(s: seq<Limb>, i: nat)
    requires i < |s|
    ensures Val(s[i..]) == s[i] + BASE * Val(s[i + 1..])
  {
    assert s[i..][1..] == s[i + 1..];
  }

  /** tab = (tab + high * BASE^n) / 2^shift; the remainder is returned. */
  method MpShr(tab: array<Limb>, n: nat, shift: Shift, high: Limb) returns (r: Limb)
    requires n <= tab.Length && high < Pow(2, shift)
    modifies tab
    ensures old(Val(tab[..n])) + Pow(BASE, n) * high == Val(tab[..n]) * Pow(2, shift) + r
    ensures r < Pow(2, shift)
    ensures tab[n..] == old(tab[n..])
  {
    assert Pow(BASE, 0) == 1;
    LimbSplit(shift);
    hide LowBits, ShrWord, Pow;
    ghost var s := tab[..];
    var l: Limb := high;
    LowBitsSmall(high, shift);
    var i := n;
    while i > 0
      invariant 0 <= i <= n
      invariant tab[..i] == s[..i] && tab[n..] == s[n..]
      invariant Val(s[i..n]) + Pow(BASE, n - i) * high == Val(tab[i..n]) * Pow(2, shift) + LowBits(l, shift)
    {
      i := i - 1;
      var a := tab[i];
      ghost var u := tab[..n];
      var w := ShrWord(a, l, shift);
      DivStep(a, Pow(2, shift), Val(s[i + 1..n]) + Pow(BASE, n - i - 1) * high, Val(u[i + 1..]),
              LowBits(l, shift), w, LowBits(a, shift));
      Cons(s[..n], i);
      assert s[..n][i..] == s[i..n] && s[..n][i + 1..] == s[i + 1..n];
      tab[i] := w;
      assert tab[..n][i + 1..] == u[i + 1..] && tab[..n][i..] == tab[i..n];
      Cons(tab[..n], i);
      PowStep(n - i - 1, high);
      l := a;
    }
    assert s[..n] == s[0..n] == old(tab[..n]) && tab[..n] == tab[0..n];
    r := LowBits(l, shift);
  }

  lemma LowBitsSmall(a: nat, k: nat)
    requires a < Pow(2, k)
    ensures LowBits(a, k) == a
  {
    DivUnique(a, Pow(2, k), 0, a);
  }

  lemma PowStep(n: nat, x: nat)
    ensures BASE * (Pow(BASE, n) * x) == Pow(BASE, n + 1) * x
  {
  }

  // ----- division -----

  /** Division of the double word (r, a) by b. */
  method DivDouble(r: Limb, a: Limb, b: Limb) returns (q: Limb, r': Limb)
    requires r < b
    ensures r * BASE + a == q * b + r' && r' < b
  {
    var a1 := r * BASE + a;
    MulGe(BASE, r + 1, b);
    DivLess(a1, b, BASE);
    q := a1 / b;
    r' := a1 % b;
  }

  /** tab = tab / b for a number whose high limb is r; the remainder is returned. */
  method MpDiv1(tab: array<Limb>, n: nat, b: Limb, r0: Limb) returns (r: Limb)
    requires n <= tab.Length && r0 < b
    modifies tab
    ensures old(Val(tab[..n])) + Pow(BASE, n) * r0 == Val(tab[..n]) * b + r
    ensures r < b
    ensures tab[n..] == old(tab[n..])
  {
    ghost var s := tab[..];
    r := r0;
    var i := n;
    while i > 0
      invariant 0 <= i <= n
      invariant tab[..i] == s[..i] && tab[n..] == s[n..]
      invariant r < b
      invariant Val(s[i..n]) + Pow(BASE, n - i) * r0 == Val(tab[i..n]) * b + r
    {
      i := i - 1;
      var a := tab[i];
      var q, r' := DivDouble(r, a, b);
      ghost var u := tab[..n];
      DivStep(a, b, Val(s[i + 1..n]) + Pow(BASE, n - i - 1) * r0, Val(u[i + 1..]), r, q, r');
      Cons(s[..n], i);
      assert s[..n][i..] == s[i..n] && s[..n][i + 1..] == s[i + 1..n];
      tab[i] := q;
      assert tab[..n][i + 1..] == u[i + 1..] && tab[..n][i..] == tab[i..n];
      Cons(tab[..n], i);
      PowStep(n - i - 1, r0);
      r := r';
    }
    assert s[..n] == s[0..n] == old(tab[..n]) && tab[..n] == tab[0..n];
  }
}
