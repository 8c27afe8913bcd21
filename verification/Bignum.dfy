/** The small bignum of dtoa.c: a limb buffer of fixed capacity and a length. */
module Bignum {
  import opened Arith
  import opened Limbs
  import opened Rounding

  // ----- limbs and bit positions -----

  lemma BaseIsPow2()
    ensures Pow(2, 32) == BASE
  {
    FastPowIsPow(2, 32);
    assert FastPow(2, 32) == BASE;
  }

  /** 2^(32 l + k) = BASE^l * 2^k */
  lemma WordShift(l: nat, k: nat)
    ensures Pow(2, 32 * l + k) == Pow(BASE, l) * Pow(2, k)
  {
    BaseIsPow2();
    PowAdd(2, 32 * l, k);
    PowOfPow(2, 32, l);
  }

  lemma SplitAt(s: seq<Limb>, l: nat)
    requires l <= |s|
    ensures Val(s) == Val(s[..l]) + Pow(BASE, l) * Val(s[l..])
    ensures Val(s) / Pow(BASE, l) == Val(s[l..]) && Val(s) % Pow(BASE, l) == Val(s[..l])
  {
    hide Pow, Val;
    assert s == s[..l] + s[l..];
    ValAppend(s[..l], s[l..]);
    ValBound(s[..l]);
    LowHigh(Val(s), Val(s[..l]), Val(s[l..]), Pow(BASE, l));
  }

  lemma LowHigh(v: nat, low: nat, high: nat, p: nat)
    requires low < p && v == low + p * high
    ensures v / p == high && v % p == low
  {
    DivUnique(v, p, high, low);
  }

  lemma TooShort(s: seq<Limb>, l: nat, k: nat)
    requires |s| <= l
    ensures Val(s) < Pow(2, 32 * l + k)
  {
    ValBound(s);
    PowMono(BASE, |s|, l);
    WordShift(l, k);
    MulGe(Pow(BASE, l), 1, Pow(2, k));
  }

  /** Number of limbs without leading zeros, seen from the value. */
  lemma NormalIff(s: seq<Limb>)
    requires |s| > 0
    ensures s[|s| - 1] != 0 <==> Val(s) >= Pow(BASE, |s| - 1)
  {
    var n := |s| - 1;
    SplitAt(s, n);
    ValBound(s[..n]);
    assert s[n..] == [s[n]];
    assert Val(s[n..]) == s[n];
    if s[n] != 0 {
      MulGe(Pow(BASE, n), 1, s[n]);
    }
  }

  // ----- bits -----

  ghost function Bit(v: nat, k: nat): nat {
    v / Pow(2, k) % 2
  }

  /** Bit k of the limb at index l is bit 32 l + k of the number. */
  lemma LimbBit(s: seq<Limb>, l: nat, k: nat)
    requires l < |s| && k < 32
    ensures Bit(Val(s), 32 * l + k) == s[l] / Pow(2, k) % 2
    ensures Val(s) % Pow(2, 32 * l + k) == 0 <==> Val(s[..l]) == 0 && s[l] % Pow(2, k) == 0
  {
    SplitAt(s, l);
    WordShift(l, k);
    var a, h := s[l], Val(s[l + 1..]);
    Cons(s, l);
    var p := Pow(2, k);
    NestedDivision(Val(s), Pow(BASE, l), p);
    BaseIsPow2();
    PowAdd(2, k, 32 - k);
    LowPart(a, h, p, Pow(2, 31 - k));
  }

  lemma LowPart(a: nat, h: nat, p: nat, q: nat)
    requires p > 0 && BASE == p * (2 * q)
    ensures (a + BASE * h) / p % 2 == a / p % 2
    ensures (a + BASE * h) % p == a % p
  {
    var x, m := a / p, a % p;
    assert a == x * p + m;
    assert a + BASE * h == (x + 2 * (q * h)) * p + m by {
      assert p * (2 * q) * h == (2 * (q * h)) * p;
    }
    DivUnique(a + BASE * h, p, x + 2 * (q * h), m);
  }

  /** The quotient by 2^(k+1) rounded to nearest, from bit k and the bits below it. */
  lemma RoundFromBits(v: nat, k: nat, mode: Mode)
    ensures RoundQuotient(v, true, Pow(2, k + 1), mode) ==
            v / Pow(2, k + 1) +
            (match mode
             case Truncate => 0
             case NearestAway => Bit(v, k)
             case NearestEven =>
               if Bit(v, k) == 1 && (v % Pow(2, k) != 0 || Bit(v, k + 1) == 1) then 1 else 0)
  {
    var h := Pow(2, k);
    var d := Pow(2, k + 1);
    assert d == 2 * h == h * 2;
    NestedDivision(v, h, 2);
    var q, low := v / h, v % h;
    assert v == q * h + low;
    assert q == (q / 2) * 2 + q % 2;
    assert v == (q / 2) * d + (q % 2 * h + low) by {
      assert ((q / 2) * 2) * h == (q / 2) * d;
    }
    assert q % 2 == 0 ==> q % 2 * h == 0;
    assert q % 2 == 1 ==> q % 2 * h == h;
    DivUnique(v, d, q / 2, q % 2 * h + low);
  }

  // ----- the number class -----

  class Mpb {
    var len: nat
    const tab: array<Limb>

    ghost predicate Valid()
      reads this
    {
      1 <= len <= tab.Length
    }

    ghost function Value(): nat
      requires Valid()
      reads this, tab
    {
      Val(tab[..len])
    }

    /** No leading zero limb. */
    ghost predicate Normal()
      requires Valid()
      reads this, tab
    {
      len == 1 || tab[len - 1] != 0
    }

    constructor (capacity: nat)
      requires capacity >= 1
      ensures Valid() && fresh(tab) && tab.Length == capacity
    {
      tab := new Limb[capacity];
      len := 1;
    }

    lemma NormalByValue()
      requires Valid()
      ensures Normal() <==> len == 1 || Value() >= Pow(BASE, len - 1)
    {
      NormalIff(tab[..len]);
    }

    /** mpb_renorm: drops leading zero limbs. */
    method Renorm()
      requires Valid()
      modifies this`len
      ensures Valid() && Normal() && len <= old(len)
      ensures Value() == old(Value())
    {
      while len > 1 && tab[len - 1] == 0
        invariant Valid() && len <= old(len)
        invariant Value() == old(Value())
      {
        assert tab[..len] == tab[..len - 1] + [0];
        ValSnoc(tab[..len - 1], 0);
        len := len - 1;
      }
    }

    method GetBit(k: nat) returns (bit: nat)
      requires Valid()
      ensures bit == Bit(Value(), k)
    {
      var l, b := k / 32, k % 32;
      if l >= len {
        TooShort(tab[..len], l, b);
        DivUnique(Value(), Pow(2, k), 0, Value());
        bit := 0;
      } else {
        LimbBit(tab[..len], l, b);
        bit := tab[l] / Pow(2, b) % 2;
      }
    }

    /** Whether any of the n lowest limbs is non-zero. */
    method AnyLimb(n: nat) returns (any: bool)
      requires n <= tab.Length
      ensures any <==> Val(tab[..n]) != 0
    {
      any := false;
      for i := 0 to n
        invariant any <==> exists j :: 0 <= j < i && tab[j] != 0
      {
        any := any || tab[i] != 0;
      }
      if any {
        LowLimbs(tab[..n]);
      } else {
        ValZeros(tab[..n]);
      }
    }

    /** Whether any of the k lowest bits is set. */
    method AnyLowBit(k: nat) returns (any: bool)
      requires Valid()
      ensures any <==> Value() % Pow(2, k) != 0
    {
      hide Pow, Val;
      var l, b := k / 32, k % 32;
      any := AnyLimb(if l < len then l else len);
      if l < len {
        LimbBit(tab[..len], l, b);
        assert tab[..len][..l] == tab[..l];
        any := any || LowBits(tab[l], b) != 0;
      } else {
        TooShort(tab[..len], l, b);
        DivUnique(Value(), Pow(2, k), 0, Value());
      }
    }

    /** The rounding decision of mpb_shr_round, taken before anything is shifted. */
    method RoundingIncrement(shift: nat, mode: Mode) returns (addOne: nat)
      requires Valid() && shift >= 1
      ensures RoundQuotient(Value(), true, Pow(2, shift), mode) == Value() / Pow(2, shift) + addOne
      ensures addOne <= 1
    {
      RoundFromBits(Value(), shift - 1, mode);
      addOne := 0;
      if mode != Truncate {
        var bit1 := GetBit(shift - 1);
        if bit1 != 0 {
          var bit2 := true;
          if mode != NearestAway {
            bit2 := false;
            if shift >= 2 {
              bit2 := AnyLowBit(shift - 1);
            }
          }
          if bit2 {
            addOne := 1;
          } else {
            addOne := GetBit(shift);
          }
        }
      }
    }

    /** Drops the l lowest limbs. */
    method DropLimbs(l: nat)
      requires Valid() && l < len
      modifies this`len, tab
      ensures Valid() && len == old(len) - l
      ensures tab[..len] == old(tab[l..len])
    {
      ghost var s := tab[..];
      len := len - l;
      for i := 0 to len
        modifies tab
        invariant tab[..i] == s[l..l + i]
        invariant tab[i..] == s[i..]
      {
        assert tab[i + l] == tab[i..][l] == s[i + l];
        tab[i] := tab[i + l];
        assert tab[..i + 1] == s[l..l + i] + [s[i + l]] == s[l..l + i + 1];
        assert tab[i + 1..] == s[i..][1..];
      }
    }

    /** The part of a right shift inside the limbs. */
    method ShiftRightBits(b: nat)
      requires Valid() && Normal() && b < 32
      modifies this`len, tab
      ensures Valid() && Normal() && len <= old(len)
      ensures Value() == old(Value()) / Pow(2, b)
    {
      if b != 0 {
        hide Pow, Val;
        ghost var v := Value();
        var r := MpShr(tab, len, b, 0);
        DivUnique(v, Pow(2, b), Value(), r);
        Renorm();
      }
    }

    /** The right shift of mpb_shr_round: by whole limbs, then inside the limbs. */
    method ShiftRight(shift: nat)
      requires Valid() && Normal() && shift / 32 < len
      modifies this`len, tab
      ensures Valid() && Normal() && len <= old(len) - shift / 32
      ensures Value() == old(Value()) / Pow(2, shift)
    {
      var l, b := shift / 32, shift % 32;
      ghost var s := tab[..len];
      SplitAt(s, l);
      WordShift(l, b);
      NestedDivision(Val(s), Pow(BASE, l), Pow(2, b));
      hide Pow;
      if l > 0 {
        DropLimbs(l);
        assert tab[..len] == s[l..];
        assert tab[len - 1] == s[|s| - 1];
      }
      assert tab[..len] == s[l..];
      ShiftRightBits(b);
    }

    method AddOne()
      requires Valid() && Normal()
      requires Value() + 1 < Pow(BASE, tab.Length)
      modifies this`len, tab
      ensures Valid() && Normal()
      ensures Value() == old(Value()) + 1
    {
      hide Pow;
      ghost var s := tab[..len];
      NormalByValue();
      ValBound(s);
      var a := MpAddUi(tab, 1, len);
      if a != 0 {
        CarryMakesRoom(Val(tab[..len]), Val(s), len, a);
        assert len < tab.Length by {
          if len == tab.Length { assert false; }
        }
        AppendLimb(a);
      }
      NormalByValue();
    }

    /** Moves the limbs up by l places. */
    method MoveUp(l: nat)
      requires Valid() && len + l <= tab.Length
      modifies tab
      ensures tab[l..len + l] == old(tab[..len])
    {
      ghost var s := tab[..];
      var i := len;
      while i > 0
        invariant 0 <= i <= len
        invariant forall j :: 0 <= j < i ==> tab[j] == s[j]
        invariant forall j :: i <= j < len ==> tab[j + l] == s[j]
      {
        i := i - 1;
        tab[i + l] := tab[i];
      }
      assert tab[l..len + l] == s[..len];
    }

    /** Inserts l zero limbs at the low end. */
    method InsertLimbs(l: nat)
      requires Valid() && len + l <= tab.Length
      modifies this`len, tab
      ensures Valid() && len == old(len) + l
      ensures tab[l..len] == old(tab[..len])
      ensures forall j :: 0 <= j < l ==> tab[j] == 0
    {
      MoveUp(l);
      ghost var u := tab[l..len + l];
      for i := 0 to l
        modifies tab
        invariant tab[l..len + l] == u
        invariant forall j :: 0 <= j < i ==> tab[j] == 0
      {
        tab[i] := 0;
        assert tab[l..len + l] == u;
      }
      len := len + l;
    }

    /** Room for the result of a left shift and one scratch limb. */
    ghost predicate RoomFor(shift: nat)
      requires Valid()
      reads this, tab
    {
      (if Value() == 0 then 1 else Value()) * Pow(2, shift) < Pow(BASE, tab.Length - 1)
    }

    /** The part of a left shift inside the limbs. */
    method ShiftLeftBits(b: nat)
      requires Valid() && Normal() && b < 32 && len < tab.Length
      modifies this`len, tab
      ensures Valid() && Normal() && len <= old(len) + 1
      ensures Value() == old(Value()) * Pow(2, b)
    {
      if b != 0 {
        hide Pow;
        var h := MpShl(tab, tab, len, b, 0);
        AppendLimb(h);
        Renorm();
      }
    }

    /** The part of a left shift by whole limbs. */
    method ShiftLeftLimbs(l: nat)
      requires Valid() && Normal() && len + l <= tab.Length
      modifies this`len, tab
      ensures Valid() && (old(Value()) > 0 ==> Normal())
      ensures Value() == old(Value()) * Pow(BASE, l)
    {
      if l > 0 {
        ghost var s := tab[..len];
        if Value() > 0 {
          TopLimb();
        }
        InsertLimbs(l);
        ShiftedValue(tab[..len], l, s);
        assert tab[len - 1] == s[|s| - 1];
      }
    }

    /** The left shift of mpb_shr_round: inside the limbs, then by whole limbs. */
    method ShiftLeft(shift: nat)
      requires Valid() && Normal() && RoomFor(shift)
      modifies this`len, tab
      ensures Valid() && (old(Value()) > 0 ==> Normal())
      ensures Value() == old(Value()) * Pow(2, shift)
    {
      var l, b := shift / 32, shift % 32;
      ghost var v := Value();
      NormalByValue();
      ShiftRoom(if v == 0 then 1 else v, l, b, len, tab.Length);
      WordShift(l, b);
      Reassociate(v, Pow(2, shift), Pow(BASE, l), Pow(2, b));
      hide Pow;
      ShiftLeftBits(b);
      if v > 0 {
        MulGe(v, 1, Pow(2, b));
      }
      ShiftLeftLimbs(l);
    }

    lemma TopLimb()
      requires Valid() && Normal() && Value() > 0
      ensures tab[len - 1] != 0
    {
      if len == 1 {
        OneLimb(tab[..1]);
      }
    }

    method AppendLimb(h: Limb)
      requires Valid() && len < tab.Length
      modifies this`len, tab
      ensures Valid() && len == old(len) + 1 && tab[len - 1] == h
      ensures Value() == old(Value()) + Pow(BASE, old(len)) * h
    {
      ghost var t := tab[..len];
      tab[len] := h;
      len := len + 1;
      assert tab[..len] == t + [h];
      ValSnoc(t, h);
    }

    /** mpb_shr_round: this = round(this / 2^shift); a negative shift multiplies. */
    method ShrRound(shift: int, mode: Mode)
      requires Valid() && Normal() && (shift < 0 ==> RoomFor(-shift))
      modifies this`len, tab
      ensures Valid() && (shift >= 0 || old(Value()) > 0 ==> Normal())
      ensures shift >= 0 ==> Value() == RoundQuotient(old(Value()), true, Pow(2, shift), mode)
      ensures shift < 0 ==> Value() == old(Value()) * Pow(2, -shift)
    {
      if shift == 0 {
        return;
      }
      if shift < 0 {
        ShiftLeft(-shift);
      } else {
        var addOne := RoundingIncrement(shift, mode);
        hide RoundQuotient, Pow;
        if shift / 32 >= len {
          TooShort(tab[..len], shift / 32, shift % 32);
          DivUnique(Value(), Pow(2, shift), 0, Value());
          len := 1;
          tab[0] := addOne;
          OneLimb(tab[..1]);
        } else {
          ghost var n, v := len, Value();
          ValBound(tab[..len]);
          ShiftRight(shift);
          if addOne != 0 {
            IncrementFits(v, shift, n);
            PowMono(BASE, n, tab.Length);
            AddOne();
          }
        }
      }
    }

    /** mpb_cmp: the sign of this - other. */
    method Cmp(other: Mpb) returns (c: int)
      requires Valid() && Normal() && other.Valid() && other.Normal()
      ensures -1 <= c <= 1
      ensures c < 0 <==> Value() < other.Value()
      ensures c > 0 <==> Value() > other.Value()
    {
      NormalByValue();
      other.NormalByValue();
      ValBound(tab[..len]);
      ValBound(other.tab[..other.len]);
      if len < other.len {
        PowMono(BASE, len, other.len - 1);
        return -1;
      } else if len > other.len {
        PowMono(BASE, other.len, len - 1);
        return 1;
      }
      var i := len;
      while i > 0
        invariant 0 <= i <= len
        invariant tab[i..len] == other.tab[i..len]
      {
        i := i - 1;
        if tab[i] != other.tab[i] {
          assert tab[..len][i + 1..] == tab[i + 1..len] == other.tab[i + 1..len] == other.tab[..len][i + 1..];
          if tab[i] < other.tab[i] {
            CompareAt(tab[..len], other.tab[..len], i);
          } else {
            CompareAt(other.tab[..len], tab[..len], i);
          }
          return if tab[i] < other.tab[i] then -1 else 1;
        }
      }
      assert tab[..len] == other.tab[..len];
      return 0;
    }

    /** mpb_set_u64 */
    method SetU64(m: nat)
      requires m < DBASE && tab.Length >= 2
      modifies this`len, tab
      ensures Valid() && Normal() && len <= 2
      ensures Value() == m
    {
      QuotientFits(m);
      tab[0] := m % BASE;
      tab[1] := m / BASE;
      if tab[1] == 0 {
        len := 1;
        OneLimb(tab[..1]);
      } else {
        len := 2;
        TwoLimbs(tab[..2]);
      }
    }

    /** mpb_get_u64: the two lowest limbs; the number itself when it fits. */
    method GetU64() returns (m: nat)
      requires Valid()
      ensures m == Value() % DBASE
    {
      if len == 1 {
        OneLimb(tab[..1]);
        m := tab[0];
      } else {
        LowWord(tab[..len]);
        m := tab[0] + BASE * tab[1];
      }
    }

    /** mpb_floor_log2: the position of the highest set bit, -1 for zero. */
    method FloorLog2() returns (k: int)
      requires Valid() && Normal()
      ensures Value() == 0 ==> k == -1
      ensures Value() > 0 ==> 0 <= k < 32 * len && Pow(2, k) <= Value() < Pow(2, k + 1)
    {
      hide Pow, Val;
      var v := tab[len - 1];
      ghost var s := tab[..len];
      SplitAt(s, len - 1);
      OneLimb(s[len - 1..]);
      ValBound(s[..len - 1]);
      if v == 0 {
        NormalByValue();
        NormalIff(s);
        return -1;
      }
      var b := TopBit(v);
      k := 32 * (len - 1) + b;
      WordShift(len - 1, b);
      WordShift(len - 1, b + 1);
      TopBounds(Value(), Val(s[..len - 1]), v, Pow(BASE, len - 1), Pow(2, b), Pow(2, b + 1));
    }
  }

  /** 31 - clz32(v) */
  function TopBit(v: nat): (b: nat)
    requires 0 < v < BASE
    ensures b < 32 && Pow(2, b) <= v < Pow(2, b + 1)
  {
    BaseIsPow2();
    TopBitFrom(v, 31)
  }

  function TopBitFrom(v: nat, k: nat): (b: nat)
    requires 0 < v < Pow(2, k + 1)
    ensures b <= k && Pow(2, b) <= v < Pow(2, b + 1)
  {
    if v >= Pow(2, k) || k == 0 then k else TopBitFrom(v, k - 1)
  }

  lemma TopBounds(x: nat, low: nat, v: nat, w: nat, p: nat, q: nat)
    requires low < w && 0 < p <= v < q && x == low + w * v
    ensures 0 < w * p <= x < w * q
  {
    MulGe(w, 1, p);
    MulGe(w, p, v);
    MulGe(w, v + 1, q);
  }

  lemma OneLimb(s: seq<Limb>)
    requires |s| == 1
    ensures Val(s) == s[0]
  {
  }

  lemma TwoLimbs(s: seq<Limb>)
    requires |s| == 2
    ensures Val(s) == s[0] + BASE * s[1]
  {
    OneLimb(s[1..]);
  }

  lemma LowWord(s: seq<Limb>)
    requires |s| >= 2
    ensures Val(s) % DBASE == s[0] + BASE * s[1]
  {
    hide Val, Pow;
    SplitAt(s, 2);
    TwoLimbs(s[..2]);
    BaseSquared();
  }

  lemma BaseSquared()
    ensures Pow(BASE, 2) == DBASE
  {
    PowPred(BASE, 2);
    PowPred(BASE, 1);
  }

  lemma CompareAt(s: seq<Limb>, t: seq<Limb>, i: nat)
    requires |s| == |t| && i < |s| && s[i + 1..] == t[i + 1..] && s[i] < t[i]
    ensures Val(s) < Val(t)
  {
    SplitAt(s, i);
    SplitAt(t, i);
    Cons(s, i);
    Cons(t, i);
    ValBound(s[..i]);
    hide Pow, Val;
    CompareSplit(Val(s[..i]), Val(s[i..]), Val(t[..i]), Val(t[i..]), Pow(BASE, i));
  }

  lemma CompareSplit(x0: nat, x1: nat, y0: nat, y1: nat, p: nat)
    requires x0 < p && x1 < y1
    ensures x0 + p * x1 < y0 + p * y1
  {
    MulGe(p, x1 + 1, y1);
  }

  /** After a shift by at least one bit an increment cannot outgrow the old length. */
  lemma IncrementFits(v: nat, shift: nat, n: nat)
    requires v < Pow(BASE, n) && shift >= 1 && n >= 1
    ensures v / Pow(2, shift) + 1 < Pow(BASE, n)
  {
    PowMono(2, 1, shift);
    PowMono(BASE, 1, n);
    HalfFits(v, Pow(2, shift), Pow(BASE, n));
  }

  lemma HalfFits(v: nat, d: nat, w: nat)
    requires v < w && d >= 2 && w > 2
    ensures v / d + 1 < w
  {
    MulGe(v / d, 2, d);
  }

  lemma ShiftRoom(w: nat, l: nat, b: nat, n: nat, cap: nat)
    requires n >= 1 && cap >= 1 && w >= Pow(BASE, n - 1)
    requires w * Pow(2, 32 * l + b) < Pow(BASE, cap - 1)
    ensures n + l < cap
  {
    WordShift(l, b);
    MulGe(Pow(BASE, l), 1, Pow(2, b));
    MulMono(Pow(BASE, n - 1), w, Pow(BASE, l), Pow(2, 32 * l + b));
    PowAdd(BASE, n - 1, l);
    if n + l >= cap {
      PowMono(BASE, cap - 1, n - 1 + l);
    }
  }

  lemma ShiftedValue(t: seq<Limb>, l: nat, s: seq<Limb>)
    requires l <= |t| && t[l..] == s && forall j :: 0 <= j < l ==> t[j] == 0
    ensures Val(t) == Val(s) * Pow(BASE, l)
  {
    hide Pow, Val;
    SplitAt(t, l);
    ValZeros(t[..l]);
  }

  lemma Reassociate(v: nat, x: nat, p: nat, q: nat)
    requires x == p * q
    ensures v * x == (v * q) * p
  {
  }

  /** A carry out of an increment leaves all limbs zero. */
  lemma CarryMakesRoom(v: nat, v0: nat, n: nat, a: nat)
    requires v0 < Pow(BASE, n) && v + Pow(BASE, n) * a == v0 + 1 && a > 0
    ensures v == 0 && a == 1 && v0 + 1 == Pow(BASE, n)
  {
    var p := Pow(BASE, n);
    if a >= 2 {
      MulGe(p, 2, a);
    }
  }

  lemma LowLimbs(s: seq<Limb>)
    requires exists j :: 0 <= j < |s| && s[j] != 0
    ensures Val(s) != 0
  {
    if Val(s) == 0 {
      ValZeroAll(s);
    }
  }
}
