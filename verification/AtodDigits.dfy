/** js_atod, first part: skipping zeros and accumulating the significant digits. */
module AtodDigits {
  import opened Arith
  import opened Limbs
  import opened Rounding
  import opened Bignum
  import opened RadixLog
  import opened Powers
  import opened Capacity
  import opened Digits
  import opened Numeral

  function Zeros(n: nat): (z: seq<nat>)
    ensures |z| == n && forall i :: 0 <= i < n ==> z[i] == 0
  {
    seq(n, i => 0)
  }

  // ----- leading zeros -----

  /** One round of the reading: the dot, then the separator and the digit. */
  lemma ScanRound(s: string, p: nat, st: Style, dot: int, count: nat)
    requires 2 <= st.radix <= 36
    ensures DotAt(s, p, st) && dot >= 0 ==> ScanDigits(s, p, st, dot, count) == Scan([], dot, p)
    ensures DotAt(s, p, st) && dot < 0 ==> ScanDigits(s, p, st, dot, count) == ScanDigit(s, p + 1, st, count, count)
    ensures !DotAt(s, p, st) ==> ScanDigits(s, p, st, dot, count) == ScanDigit(s, p, st, dot, count)
    ensures DotAt(s, p, st) ==> p < |s|
  {
  }

  lemma DigitRound(s: string, p: nat, st: Style, dot: int, count: nat, q: nat)
    requires 2 <= st.radix <= 36 && q == if SeparatorAt(s, p, st) then p + 1 else p
    ensures var c := ToDigit(At(s, q));
            if c >= st.radix then ScanDigit(s, p, st, dot, count) == Scan([], dot, q) && q == p
            else var r := ScanDigits(s, q + 1, st, dot, count + 1);
                 q < |s| && ScanDigit(s, p, st, dot, count) == Scan([c] + r.digits, r.dot, r.next)
  {
  }

  /** rest is what remains of full behind pos zeros. */
  ghost predicate BehindZeros(full: Scan, pos: nat, rest: Scan) {
    full == Scan(Zeros(pos) + rest.digits, rest.dot, rest.next)
  }

  lemma OneZeroMore(full: Scan, pos: nat, rest: Scan, rest': Scan)
    requires BehindZeros(full, pos, rest) && rest == Scan([0] + rest'.digits, rest'.dot, rest'.next)
    ensures BehindZeros(full, pos + 1, rest')
  {
    assert Zeros(pos) + ([0] + rest'.digits) == Zeros(pos + 1) + rest'.digits;
  }

  /** The first loop: leading zeros, on either side of the dot. */
  method SkipZeros(s: string, p0: nat, st: Style) returns (p: nat, pos: nat, dot: int)
    requires 2 <= st.radix <= 36
    ensures BehindZeros(ScanDigits(s, p0, st, -1, 0), pos, ScanDigits(s, p, st, dot, pos))
    ensures dot <= pos
    ensures var ds := ScanDigits(s, p, st, dot, pos).digits; ds == [] || ds[0] != 0
  {
    hide BehindZeros, ScanDigits, ScanDigit, DotAt;
    p, pos, dot := p0, 0, -1;
    ghost var full := ScanDigits(s, p0, st, -1, 0);
    NoZerosYet(full);
    while true
      invariant BehindZeros(full, pos, ScanDigits(s, p, st, dot, pos))
      invariant dot <= pos
      decreases |s| + 1 - p
    {
      ScanRound(s, p, st, dot, pos);
      if DotAt(s, p, st) {
        if dot >= 0 {
          break;
        }
        dot := pos;
        p := p + 1;
      }
      DigitRound(s, p, st, dot, pos, if SeparatorAt(s, p, st) then p + 1 else p);
      ghost var rest := ScanDigit(s, p, st, dot, pos);
      if st.sep && At(s, p) == '_' && p > st.start && At(s, p + 1) == '0' {
        p := p + 1;
      }
      if At(s, p) != '0' {
        NoMoreZeros(s, p, st, dot, pos);
        break;
      }
      OneZeroMore(full, pos, rest, ScanDigits(s, p + 1, st, dot, pos + 1));
      p := p + 1;
      pos := pos + 1;
    }
  }

  /** Where the zeros stop, the reading resumes with a non-zero digit or none. */
  lemma NoMoreZeros(s: string, p: nat, st: Style, dot: int, pos: nat)
    requires 2 <= st.radix <= 36 && At(s, p) != '0'
    requires st.sep && At(s, p) == '_' && p > st.start ==> At(s, p + 1) != '0'
    requires DotAt(s, p, st) ==> dot >= 0
    ensures ScanDigits(s, p, st, dot, pos) == ScanDigit(s, p, st, dot, pos)
    ensures var ds := ScanDigits(s, p, st, dot, pos).digits; ds == [] || ds[0] != 0
  {
    DigitRound(s, p, st, dot, pos, if SeparatorAt(s, p, st) then p + 1 else p);
  }

  lemma NoZerosYet(full: Scan)
    ensures BehindZeros(full, 0, full)
  {
    assert Zeros(0) + full.digits == full.digits;
  }

  // ----- the accumulator -----

  /** radix_base, where 0 stands for 2^32. */
  lemma BaseOfRadix(radix: nat)
    requires 2 <= radix <= 36
    ensures RadixBase(radix) < BASE && DigitsPerLimb(radix) >= 1
    ensures Pow(radix, DigitsPerLimb(radix)) == if RadixBase(radix) == 0 then BASE else RadixBase(radix)
  {
    hide Pow;
    if RadixBits(radix) == 0 {
      RadixBaseIsPower(radix);
      PowPositive(radix, DigitsPerLimb(radix));
    } else {
      FastPowIsPow(radix, DigitsPerLimb(radix));
      PowerOfTwoBases(radix);
    }
  }

  lemma PowerOfTwoBases(radix: nat)
    requires 2 <= radix <= 36 && RadixBits(radix) != 0
    ensures FastPow(radix, DigitsPerLimb(radix)) == if RadixBase(radix) == 0 then BASE else RadixBase(radix)
    ensures RadixBase(radix) < BASE
  {
    assert FastPow(2, 32) == BASE && FastPow(4, 16) == BASE && FastPow(16, 8) == BASE;
    assert FastPow(8, 10) == 0x40000000 && FastPow(32, 6) == 0x40000000;
  }

  lemma FewLimbs(a: Mpb)
    requires a.Valid() && a.Normal() && a.Value() < Pow(2, 128)
    ensures a.len <= 4
  {
    hide Pow;
    a.NormalByValue();
    BaseIsPow2();
    PowOfPow(2, 32, 4);
    if a.len > 4 {
      PowMono(BASE, 4, a.len - 1);
    }
  }

  /** The branch of mpb_mul1_base for 2^32; the C loop also moves the limb beyond the end. */
  method PrependLimb(r: Mpb, l: Limb)
    requires r.Valid() && r.len + 2 <= r.tab.Length
    modifies r`len, r.tab
    ensures r.Valid() && r.len == old(r.len) + 1
    ensures r.tab[r.len - 1] == old(r.tab[r.len - 1])
    ensures r.Value() == old(r.Value()) * BASE + l
  {
    ghost var u := r.tab[..];
    ghost var n := r.len;
    var i := r.len;
    while i >= 0
      invariant -1 <= i <= n == r.len
      invariant forall j :: 0 <= j <= i + 1 ==> r.tab[j] == u[j]
      invariant forall j :: i + 1 <= j <= n ==> r.tab[j + 1] == u[j]
      modifies r.tab
    {
      r.tab[i + 1] := r.tab[i];
      i := i - 1;
    }
    r.tab[0] := l;
    r.len := r.len + 1;
    assert r.tab[..r.len] == [l] + u[..n];
    assert ([l] + u[..n])[1..] == u[..n];
  }

  /** mpb_mul1_base: r = r * base + l. */
  method Mul1Base(r: Mpb, radixBase: Limb, l: Limb, ghost base: nat)
    requires r.Valid() && r.Normal() && r.len + 2 <= r.tab.Length
    requires base == if radixBase == 0 then BASE else radixBase
    modifies r`len, r.tab
    ensures r.Valid() && r.Normal()
    ensures r.Value() == old(r.Value()) * base + l
  {
    hide Pow, Val;
    ghost var s := r.tab[..r.len];
    if r.tab[0] == 0 && r.len == 1 {
      OneLimb(s);
      r.tab[0] := l;
      OneLimb(r.tab[..1]);
    } else {
      if radixBase == 0 {
        PrependLimb(r, l);
        r.Renorm();
      } else {
        var h := MpMul1(r.tab, r.len, radixBase, l);
        r.AppendLimb(h);
        r.Renorm();
      }
    }
  }

  /** What the bignum and the current limb hold together. */
  ghost function Held(v: nat, cur: nat, count: nat, radix: nat): nat {
    v * Pow(radix, count) + cur
  }

  lemma LimbHasRoom(cur: nat, count: nat, radix: nat, c: nat, d: nat)
    requires radix > 0 && cur < Pow(radix, count) && c < radix && count < d
    ensures cur * radix + c < Pow(radix, count + 1) <= Pow(radix, d)
  {
    hide Pow;
    PowPred(radix, count + 1);
    MulGe(radix, cur + 1, Pow(radix, count));
    PowMono(radix, count + 1, d);
  }

  lemma HeldStep(v: nat, cur: nat, count: nat, radix: nat, c: nat)
    ensures Held(v, cur * radix + c, count + 1, radix) == Held(v, cur, count, radix) * radix + c
  {
    HornerStep(v, Pow(radix, count), cur, radix);
  }

  lemma HeldAtLeast(v: nat, cur: nat, count: nat, radix: nat)
    requires radix > 0
    ensures v <= Held(v, cur, count, radix)
    ensures Held(v, 0, 0, radix) == v
  {
    MulGe(v, 1, Pow(radix, count));
  }

  /** One significant digit. */
  method PushDigit(tmp: Mpb, cur0: Limb, count0: nat, radix: nat, c: nat) returns (cur: Limb, count: nat)
    requires tmp.Valid() && tmp.Normal() && tmp.tab.Length == DBIGNUM_LEN_MAX
    requires 2 <= radix <= 36 && c < radix && count0 < DigitsPerLimb(radix) && cur0 < Pow(radix, count0)
    requires Held(tmp.Value(), cur0, count0, radix) < Pow(2, 128)
    modifies tmp`len, tmp.tab
    ensures tmp.Valid() && tmp.Normal()
    ensures count < DigitsPerLimb(radix) && cur < Pow(radix, count)
    ensures Held(tmp.Value(), cur, count, radix) == Held(old(tmp.Value()), cur0, count0, radix) * radix + c
  {
    hide Pow, DigitsPerLimb, RadixBase, Held;
    ghost var v := tmp.Value();
    HeldAtLeast(v, cur0, count0, radix);
    FewLimbs(tmp);
    DigitTables(radix);
    BaseOfRadix(radix);
    LimbHasRoom(cur0, count0, radix, c, DigitsPerLimb(radix));
    HeldStep(v, cur0, count0, radix, c);
    cur := cur0 * radix + c;
    count := count0 + 1;
    if count == DigitsPerLimb(radix) {
      Mul1Base(tmp, RadixBase(radix), cur, Pow(radix, count));
      HeldUnfold(v, cur, count, radix);
      HeldAtLeast(tmp.Value(), 0, 0, radix);
      PowOne(radix);
      cur, count := 0, 0;
    }
  }

  lemma HeldUnfold(v: nat, cur: nat, count: nat, radix: nat)
    ensures Held(v, cur, count, radix) == v * Pow(radix, count) + cur
  {
  }

  /** The digits left in the current limb. */
  method FlushDigits(tmp: Mpb, cur: Limb, count: nat, radix: nat)
    requires tmp.Valid() && tmp.Normal() && tmp.tab.Length == DBIGNUM_LEN_MAX
    requires 2 <= radix <= 36 && count < DigitsPerLimb(radix) && cur < Pow(radix, count)
    requires Held(tmp.Value(), cur, count, radix) < Pow(2, 128)
    modifies tmp`len, tmp.tab
    ensures tmp.Valid() && tmp.Normal()
    ensures tmp.Value() == Held(old(tmp.Value()), cur, count, radix)
  {
    hide Pow, DigitsPerLimb, Held;
    ghost var v := tmp.Value();
    HeldUnfold(v, cur, count, radix);
    PowOne(radix);
    if count != 0 {
      HeldAtLeast(v, cur, count, radix);
      FewLimbs(tmp);
      ShortPower(radix, count);
      var base := PowUi(radix, count);
      Mul1Base(tmp, base, cur, base);
    }
  }

  lemma ShortPower(radix: nat, n: nat)
    requires 2 <= radix <= 36 && n < DigitsPerLimb(radix)
    ensures 0 < Pow(radix, n) < BASE && n < BASE
  {
    hide Pow;
    DigitTables(radix);
    PowMono(radix, n + 1, DigitsPerLimb(radix));
    PowPred(radix, n + 1);
    MulGe(Pow(radix, n), 2, radix);
  }

  // ----- the digits -----

  lemma DigitsBound(ds: seq<nat>, radix: nat)
    requires 2 <= radix <= 36 && |ds| <= AtodMaxDigits(radix)
    requires forall i :: 0 <= i < |ds| ==> ds[i] < radix
    ensures DigitsValue(ds, radix) < Pow(2, 128)
  {
    hide Pow, AtodMaxDigits;
    DigitsBelow(ds, radix);
    DigitTables(radix);
    PowMono(radix, |ds|, AtodMaxDigits(radix));
  }

  ghost predicate AnyNonZero(ds: seq<nat>) {
    exists i :: 0 <= i < |ds| && ds[i] != 0
  }

  lemma AnySnoc(ds: seq<nat>, c: nat)
    ensures AnyNonZero(ds + [c]) <==> AnyNonZero(ds) || c != 0
  {
    if AnyNonZero(ds) {
      var i :| 0 <= i < |ds| && ds[i] != 0;
      assert (ds + [c])[i] != 0;
    }
    if c != 0 {
      assert (ds + [c])[|ds|] != 0;
    }
  }

  /** What the digit loop has done with the digits read so far. */
  ghost predicate Accumulated(v: nat, cur: nat, count: nat, radix: nat, read: seq<nat>, kept: nat, extra: bool)
    requires 2 <= radix <= 36
  {
    && (forall i :: 0 <= i < |read| ==> read[i] < radix)
    && kept == Min(|read|, AtodMaxDigits(radix))
    && Held(v, cur, count, radix) == DigitsValue(read[..kept], radix)
    && (extra <==> AnyNonZero(read[kept..]))
  }

  lemma KeepDigit(v: nat, cur: nat, count: nat, radix: nat, read: seq<nat>, kept: nat, extra: bool, c: nat,
                  v': nat, cur': nat, count': nat)
    requires 2 <= radix <= 36 && Accumulated(v, cur, count, radix, read, kept, extra)
    requires c < radix && kept < AtodMaxDigits(radix)
    requires Held(v', cur', count', radix) == Held(v, cur, count, radix) * radix + c
    ensures Accumulated(v', cur', count', radix, read + [c], kept + 1, extra)
  {
    hide Held, DigitsValue;
    SnocDigit(read, c, radix);
    assert read[..kept] == read && (read + [c])[..kept + 1] == read + [c];
  }

  lemma DropDigit(v: nat, cur: nat, count: nat, radix: nat, read: seq<nat>, kept: nat, extra: bool, c: nat)
    requires 2 <= radix <= 36 && Accumulated(v, cur, count, radix, read, kept, extra)
    requires c < radix && kept >= AtodMaxDigits(radix)
    ensures Accumulated(v, cur, count, radix, read + [c], kept, extra || c != 0)
  {
    hide Held, DigitsValue, AnyNonZero;
    AnySnoc(read[kept..], c);
    assert (read + [c])[..kept] == read[..kept] && (read + [c])[kept..] == read[kept..] + [c];
  }

  lemma AccumulatedBound(v: nat, cur: nat, count: nat, radix: nat, read: seq<nat>, kept: nat, extra: bool)
    requires 2 <= radix <= 36 && Accumulated(v, cur, count, radix, read, kept, extra)
    ensures Held(v, cur, count, radix) < Pow(2, 128)
  {
    DigitsBound(read[..kept], radix);
  }

  lemma NothingYet(radix: nat)
    requires 2 <= radix <= 36
    ensures Accumulated(0, 0, 0, radix, [], 0, false)
  {
  }

  /** rest is what remains of full behind the digits read. */
  ghost predicate BehindDigits(full: Scan, read: seq<nat>, rest: Scan) {
    full == Scan(read + rest.digits, rest.dot, rest.next)
  }

  lemma OneDigitMore(full: Scan, read: seq<nat>, c: nat, rest: Scan)
    requires BehindDigits(full, read, Scan([c] + rest.digits, rest.dot, rest.next))
    ensures BehindDigits(full, read + [c], rest)
  {
    assert read + ([c] + rest.digits) == (read + [c]) + rest.digits;
  }

  lemma NoDigitsYet(full: Scan)
    ensures BehindDigits(full, [], full)
  {
    assert [] + full.digits == full.digits;
  }

  /** What the second loop does with one digit. */
  method TakeDigit(tmp: Mpb, cur0: Limb, count0: nat, radix: nat, kept0: nat, extra0: bool, c: nat, ghost read: seq<nat>)
    returns (cur: Limb, count: nat, kept: nat, extra: bool)
    requires tmp.Valid() && tmp.Normal() && tmp.tab.Length == DBIGNUM_LEN_MAX
    requires 2 <= radix <= 36 && c < radix && count0 < DigitsPerLimb(radix) && cur0 < Pow(radix, count0)
    requires Accumulated(tmp.Value(), cur0, count0, radix, read, kept0, extra0)
    modifies tmp`len, tmp.tab
    ensures tmp.Valid() && tmp.Normal()
    ensures count < DigitsPerLimb(radix) && cur < Pow(radix, count)
    ensures Accumulated(tmp.Value(), cur, count, radix, read + [c], kept, extra)
  {
    hide Pow, Accumulated, Held, DigitsPerLimb, AtodMaxDigits, Val;
    ghost var v := tmp.Value();
    cur, count, kept, extra := cur0, count0, kept0, extra0;
    if kept < AtodMaxDigits(radix) {
      AccumulatedBound(v, cur, count, radix, read, kept, extra);
      cur, count := PushDigit(tmp, cur, count, radix, c);
      KeepDigit(v, cur0, count0, radix, read, kept, extra, c, tmp.Value(), cur, count);
      kept := kept + 1;
    } else {
      DropDigit(v, cur, count, radix, read, kept, extra, c);
      extra := extra || c != 0;
    }
  }

  /** The second loop: the significant digits, accumulated up to the maximal count, with a
      record of whether any digit beyond it was non-zero. */
  method ReadDigits(tmp: Mpb, s: string, p0: nat, st: Style, pos0: nat, dot0: int)
    returns (p: nat, pos: nat, dot: int, kept: nat, extra: bool)
    requires 2 <= st.radix <= 36 && tmp.tab.Length == DBIGNUM_LEN_MAX && dot0 <= pos0
    modifies tmp`len, tmp.tab
    ensures tmp.Valid() && tmp.Normal()
    ensures var full := ScanDigits(s, p0, st, dot0, pos0);
            && p == full.next && dot == full.dot && pos == pos0 + |full.digits|
            && Accumulated(tmp.Value(), 0, 0, st.radix, full.digits, kept, extra)
  {
    hide Pow, Accumulated, Held, BehindDigits, DigitsPerLimb, AtodMaxDigits, ScanDigits, ScanDigit, DotAt, Val;
    var radix := st.radix;
    ghost var full := ScanDigits(s, p0, st, dot0, pos0);
    ghost var read: seq<nat> := [];
    tmp.len := 1;
    tmp.tab[0] := 0;
    OneLimb(tmp.tab[..1]);
    var cur: Limb, count: nat := 0, 0;
    p, pos, dot, kept, extra := p0, pos0, dot0, 0, false;
    NothingYet(radix);
    NoDigitsYet(full);
    PowOne(radix);
    DigitTables(radix);
    while true
      invariant tmp.Valid() && tmp.Normal() && tmp.tab.Length == DBIGNUM_LEN_MAX
      invariant BehindDigits(full, read, ScanDigits(s, p, st, dot, pos)) && pos == pos0 + |read|
      invariant count < DigitsPerLimb(radix) && cur < Pow(radix, count)
      invariant Accumulated(tmp.Value(), cur, count, radix, read, kept, extra)
      decreases |s| + 1 - p
    {
      ScanRound(s, p, st, dot, pos);
      if DotAt(s, p, st) {
        if dot >= 0 {
          break;
        }
        dot := pos;
        p := p + 1;
      }
      DigitRound(s, p, st, dot, pos, if SeparatorAt(s, p, st) then p + 1 else p);
      if SeparatorAt(s, p, st) {
        p := p + 1;
      }
      var c := ToDigit(At(s, p));
      if c >= radix {
        break;
      }
      OneDigitMore(full, read, c, ScanDigits(s, p + 1, st, dot, pos + 1));
      cur, count, kept, extra := TakeDigit(tmp, cur, count, radix, kept, extra, c, read);
      read := read + [c];
      p := p + 1;
      pos := pos + 1;
    }
    AllRead(full, read, p, dot);
    AccumulatedBound(tmp.Value(), cur, count, radix, read, kept, extra);
    ghost var v := tmp.Value();
    FlushDigits(tmp, cur, count, radix);
    Flushed(v, cur, count, radix, read, kept, extra, tmp.Value());
  }

  lemma AllRead(full: Scan, read: seq<nat>, p: nat, dot: int)
    requires BehindDigits(full, read, Scan([], dot, p))
    ensures full == Scan(read, dot, p)
  {
  }

  lemma Flushed(v: nat, cur: nat, count: nat, radix: nat, read: seq<nat>, kept: nat, extra: bool, w: nat)
    requires 2 <= radix <= 36 && Accumulated(v, cur, count, radix, read, kept, extra)
    requires w == Held(v, cur, count, radix)
    ensures Accumulated(w, 0, 0, radix, read, kept, extra)
  {
  }
}
