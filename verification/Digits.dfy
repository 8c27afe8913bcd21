/** Digits in a radix, the characters that print them, and the printing of a bignum. */
module Digits {
  import opened Arith
  import opened Limbs
  import opened Rounding
  import opened Bignum
  import opened RadixLog
  import opened Powers

  // ----- characters -----

  function DigitChar(d: nat): (c: char)
    requires d < 36
  {
    if d < 10 then '0' + d as char else 'a' + (d - 10) as char
  }

  /** The value of a digit character; 36 for anything else. */
  function ToDigit(c: char): (d: nat)
    ensures d <= 36
  {
    if '0' <= c <= '9' then (c - '0') as nat
    else if 'A' <= c <= 'Z' then (c - 'A') as nat + 10
    else if 'a' <= c <= 'z' then (c - 'a') as nat + 10
    else 36
  }

  lemma DigitCharReads(d: nat)
    requires d < 36
    ensures ToDigit(DigitChar(d)) == d
    ensures DigitChar(d) == '0' <==> d == 0
  {
  }

  // ----- numbers as digits -----

  /** The n lowest digits of v, most significant first. */
  function DigitString(v: nat, radix: nat, n: nat): (s: string)
    requires 2 <= radix <= 36
    ensures |s| == n
    decreases n
  {
    if n == 0 then "" else DigitString(v / radix, radix, n - 1) + [DigitChar(v % radix)]
  }

  /** The number a digit sequence stands for, most significant first. */
  ghost function DigitsValue(ds: seq<nat>, radix: nat): nat {
    if |ds| == 0 then 0 else DigitsValue(ds[..|ds| - 1], radix) * radix + ds[|ds| - 1]
  }

  /** The digits of a string. */
  ghost function DigitsOf(s: string): (ds: seq<nat>)
    ensures |ds| == |s|
  {
    seq(|s|, i requires 0 <= i < |s| => ToDigit(s[i]))
  }

  lemma SnocDigit(ds: seq<nat>, c: nat, radix: nat)
    ensures DigitsValue(ds + [c], radix) == DigitsValue(ds, radix) * radix + c
  {
    assert (ds + [c])[..|ds|] == ds;
  }

  lemma DigitsOfAppend(s: string, t: string)
    ensures DigitsOf(s + t) == DigitsOf(s) + DigitsOf(t)
  {
  }

  lemma {:induction false} DigitsAppend(a: seq<nat>, b: seq<nat>, radix: nat)
    ensures DigitsValue(a + b, radix) == DigitsValue(a, radix) * Pow(radix, |b|) + DigitsValue(b, radix)
  {
    if |b| == 0 {
      assert a + b == a;
    } else {
      var b' := b[..|b| - 1];
      DigitsAppend(a, b', radix);
      assert (a + b)[..|a + b| - 1] == a + b';
      HornerStep(DigitsValue(a, radix), Pow(radix, |b'|), DigitsValue(b', radix), radix);
    }
  }

  lemma HornerStep(x: nat, p: nat, y: nat, r: nat)
    ensures (x * p + y) * r == x * (r * p) + y * r
  {
  }

  lemma {:induction false} DigitsBelow(ds: seq<nat>, radix: nat)
    requires forall i :: 0 <= i < |ds| ==> ds[i] < radix
    ensures DigitsValue(ds, radix) < Pow(radix, |ds|)
  {
    if |ds| == 0 {
    } else {
      DigitsBelow(ds[..|ds| - 1], radix);
      MulGe(radix, DigitsValue(ds[..|ds| - 1], radix) + 1, Pow(radix, |ds| - 1));
    }
  }

  lemma {:induction false} ZeroDigits(ds: seq<nat>, radix: nat)
    requires forall i :: 0 <= i < |ds| ==> ds[i] == 0
    ensures DigitsValue(ds, radix) == 0
  {
    if |ds| == 0 {
    } else {
      ZeroDigits(ds[..|ds| - 1], radix);
    }
  }

  /** Every character of a digit string is a digit below the radix. */
  lemma {:induction false} DigitStringDigits(v: nat, radix: nat, n: nat)
    requires 2 <= radix <= 36
    ensures forall i :: 0 <= i < n ==> ToDigit(DigitString(v, radix, n)[i]) < radix
    decreases n
  {
    if n == 0 {
    } else {
      DigitStringDigits(v / radix, radix, n - 1);
      DigitCharReads(v % radix);
    }
  }

  /** Printing and reading n digits gives the number modulo radix^n. */
  lemma {:induction false} DigitStringValue(v: nat, radix: nat, n: nat)
    requires 2 <= radix <= 36
    ensures Pow(radix, n) > 0
    ensures DigitsValue(DigitsOf(DigitString(v, radix, n)), radix) == v % Pow(radix, n)
    decreases n
  {
    if n == 0 {
    } else {
      DigitStringValue(v / radix, radix, n - 1);
      DigitCharReads(v % radix);
      var ds := DigitsOf(DigitString(v, radix, n));
      assert ds[..n - 1] == DigitsOf(DigitString(v / radix, radix, n - 1));
      ModByProduct(v, radix, Pow(radix, n - 1));
    }
  }

  lemma ModByProduct(v: nat, a: nat, b: nat)
    requires a > 0 && b > 0
    ensures a * b > 0 && v % (a * b) == (v / a % b) * a + v % a
  {
    MulGe(a, 1, b);
    var q, r := v / a, v % a;
    var q', r' := q / b, q % b;
    assert v == q' * (a * b) + (r' * a + r) by {
      assert a * (b * q' + r') == q' * (a * b) + r' * a;
    }
    MulGe(a, r' + 1, b);
    DivUnique(v, a * b, q', r' * a + r);
  }

  lemma {:induction false} DigitStringSplit(v: nat, radix: nat, k: nat, n: nat)
    requires 2 <= radix <= 36
    ensures Pow(radix, n) > 0
    ensures DigitString(v, radix, k + n) == DigitString(v / Pow(radix, n), radix, k) + DigitString(v, radix, n)
    decreases n
  {
    if n == 0 {
    } else {
      DigitStringSplit(v / radix, radix, k, n - 1);
      PowPred(radix, n);
      NestedDivision(v, radix, Pow(radix, n - 1));
    }
  }

  /** The low digits do not see the high part. */
  lemma {:induction false} DigitStringMod(v: nat, radix: nat, n: nat, w: nat)
    requires 2 <= radix <= 36 && w % Pow(radix, n) == v % Pow(radix, n)
    ensures DigitString(w, radix, n) == DigitString(v, radix, n)
    decreases n
  {
    hide Pow;
    if n == 0 {
    } else {
      PowPred(radix, n);
      QuotientIsNat(v, radix);
      QuotientIsNat(w, radix);
      SameResidue(v, w, radix, Pow(radix, n - 1), Pow(radix, n));
      DigitStringMod(v / radix, radix, n - 1, w / radix);
    }
  }

  lemma QuotientIsNat(v: nat, a: nat)
    requires a > 0
    ensures v / a >= 0
  {
  }

  lemma SameResidue(v: nat, w: nat, a: nat, p: nat, q: nat)
    requires a > 0 && p > 0 && q == a * p && w % q == v % q
    ensures w % a == v % a && w / a % p == v / a % p
  {
    ModByProduct(v, a, p);
    ModByProduct(w, a, p);
    SplitUnique(a, w / a % p, w % a, v / a % p, v % a);
  }

  lemma SplitUnique(a: nat, q: nat, r: nat, q': nat, r': nat)
    requires r < a && r' < a && q * a + r == q' * a + r'
    ensures q == q' && r == r'
  {
    DivUnique(q * a + r, a, q, r);
    DivUnique(q * a + r, a, q', r');
  }

  /** Reducing modulo a multiple of p keeps the residue modulo p. */
  lemma ModOfMod(v: nat, p: nat, k: nat)
    requires p > 0 && k > 0
    ensures p * k > 0 && v % (p * k) % p == v % p
  {
    ModByProduct(v, p, k);
    DivUnique(v % (p * k), p, v / p % k, v % p);
  }

  // ----- printing a bignum -----

  /** limb_to_a and, for a power-of-two radix, u64toa_bin_len (which masks and shifts instead
      of dividing): len digits of n, filled in from the last. */
  method LimbToA(buf: array<char>, lo: nat, n: nat, radix: nat, len: nat)
    requires 2 <= radix <= 36 && lo + len <= buf.Length
    modifies buf
    ensures buf[lo..lo + len] == DigitString(n, radix, len)
    ensures buf[..lo] == old(buf[..lo]) && buf[lo + len..] == old(buf[lo + len..])
  {
    hide DigitString;
    ghost var all := DigitString(n, radix, len);
    var rest: nat := n;
    var i := len;
    while i > 0
      invariant 0 <= i <= len
      invariant all == DigitString(rest, radix, i) + buf[lo + i..lo + len]
      invariant buf[..lo] == old(buf[..lo]) && buf[lo + len..] == old(buf[lo + len..])
    {
      i := i - 1;
      ghost var tail := buf[lo + i + 1..lo + len];
      buf[lo + i] := DigitChar(rest % radix);
      assert buf[lo + i..lo + len] == [DigitChar(rest % radix)] + tail;
      PeelDigit(all, rest, radix, i, tail);
      rest := rest / radix;
    }
    NoDigits(rest, radix);
  }

  lemma PeelDigit(all: string, v: nat, radix: nat, i: nat, tail: string)
    requires 2 <= radix <= 36 && all == DigitString(v, radix, i + 1) + tail
    ensures all == DigitString(v / radix, radix, i) + ([DigitChar(v % radix)] + tail)
  {
  }

  lemma NoDigits(v: nat, radix: nat)
    requires 2 <= radix <= 36
    ensures DigitString(v, radix, 0) == ""
  {
  }

  /** The digits with a dot at position dot, unless that is the end. */
  function WithDot(s: string, dot: nat): string
    requires dot <= |s|
  {
    if dot == |s| then s else s[..dot] + "." + s[dot..]
  }

  lemma RadixBaseIsPower(radix: nat)
    requires 2 <= radix <= 36 && RadixBits(radix) == 0
    ensures Pow(radix, DigitsPerLimb(radix)) == RadixBase(radix) < BASE
  {
    FastPowIsPow(radix, DigitsPerLimb(radix));
    hide Pow, FastPow;
    if radix <= 9 {
      RadixBaseA(radix);
    } else if radix <= 14 {
      RadixBaseB(radix);
    } else if radix <= 20 {
      RadixBaseC(radix);
    } else if radix <= 25 {
      RadixBaseD(radix);
    } else if radix <= 30 {
      RadixBaseE(radix);
    } else {
      RadixBaseF(radix);
    }
  }

  lemma RadixBaseA(radix: nat)
    requires 2 <= radix <= 9 && RadixBits(radix) == 0
    ensures FastPow(radix, DigitsPerLimb(radix)) == RadixBase(radix) < BASE
  {
    assert FastPow(3, 20) == 0xcfd41b91 && FastPow(5, 13) == 0x48c27395 && FastPow(6, 12) == 0x81bf1000;
    assert FastPow(7, 11) == 0x75db9c97 && FastPow(9, 10) == 0xcfd41b91;
  }

  lemma RadixBaseB(radix: nat)
    requires 10 <= radix <= 14 && RadixBits(radix) == 0
    ensures FastPow(radix, DigitsPerLimb(radix)) == RadixBase(radix) < BASE
  {
    assert FastPow(10, 9) == 0x3b9aca00 && FastPow(11, 9) == 0x8c8b6d2b && FastPow(12, 8) == 0x19a10000;
    assert FastPow(13, 8) == 0x309f1021 && FastPow(14, 8) == 0x57f6c100;
  }

  lemma RadixBaseC(radix: nat)
    requires 15 <= radix <= 20 && RadixBits(radix) == 0
    ensures FastPow(radix, DigitsPerLimb(radix)) == RadixBase(radix) < BASE
  {
    assert FastPow(15, 8) == 0x98c29b81 && FastPow(17, 7) == 0x18754571 && FastPow(18, 7) == 0x247dbc80;
    assert FastPow(19, 7) == 0x3547667b && FastPow(20, 7) == 0x4c4b4000;
  }

  lemma RadixBaseD(radix: nat)
    requires 21 <= radix <= 25 && RadixBits(radix) == 0
    ensures FastPow(radix, DigitsPerLimb(radix)) == RadixBase(radix) < BASE
  {
    assert FastPow(21, 7) == 0x6b5a6e1d && FastPow(22, 7) == 0x94ace180 && FastPow(23, 7) == 0xcaf18367;
    assert FastPow(24, 6) == 0xb640000 && FastPow(25, 6) == 0xe8d4a51;
  }

  lemma RadixBaseE(radix: nat)
    requires 26 <= radix <= 30 && RadixBits(radix) == 0
    ensures FastPow(radix, DigitsPerLimb(radix)) == RadixBase(radix) < BASE
  {
    assert FastPow(26, 6) == 0x1269ae40 && FastPow(27, 6) == 0x17179149 && FastPow(28, 6) == 0x1cb91000;
    assert FastPow(29, 6) == 0x23744899 && FastPow(30, 6) == 0x2b73a840;
  }

  lemma RadixBaseF(radix: nat)
    requires 31 <= radix <= 36 && RadixBits(radix) == 0
    ensures FastPow(radix, DigitsPerLimb(radix)) == RadixBase(radix) < BASE
  {
    assert FastPow(31, 6) == 0x34e63b41 && FastPow(33, 6) == 0x4cfa3cc1 && FastPow(34, 6) == 0x5c13d840;
    assert FastPow(35, 6) == 0x6d91b519 && FastPow(36, 6) == 0x81bf1000;
  }

  /** In a power-of-two radix, a limb holds a whole number of digits. */
  lemma LimbDigits(radix: nat)
    requires 2 <= radix <= 36 && RadixBits(radix) != 0
    ensures radix == Pow(2, RadixBits(radix))
    ensures 0 < DigitsPerLimb(radix) * RadixBits(radix) <= 32
  {
    RadixIsPower(radix);
  }

  /** The digits of the lowest limb are the lowest digits of the number. */
  lemma LowDigits(s: seq<Limb>, radix: nat, n: nat)
    requires |s| > 0 && 2 <= radix <= 36 && RadixBits(radix) != 0 && n <= DigitsPerLimb(radix)
    ensures DigitString(s[0], radix, n) == DigitString(Val(s), radix, n)
    ensures Pow(radix, DigitsPerLimb(radix)) == Pow(2, DigitsPerLimb(radix) * RadixBits(radix))
  {
    hide Pow, DigitString, DigitsPerLimb, RadixBits;
    LimbDigits(radix);
    var b := RadixBits(radix);
    PowOfPow(2, b, n);
    PowOfPow(2, b, DigitsPerLimb(radix));
    MulGe(b, n, DigitsPerLimb(radix));
    BaseIsPow2();
    PowAdd(2, b * n, 32 - b * n);
    LowLimbDigits(s[0], Val(s[1..]), Pow(radix, n), Pow(2, 32 - b * n));
    DigitStringMod(Val(s), radix, n, s[0]);
  }

  lemma LowLimbDigits(a: nat, h: nat, p: nat, k: nat)
    requires a < BASE && p > 0 && k > 0 && p * k == BASE
    ensures (a + BASE * h) % p == a % p
  {
    ModOfMod(a + BASE * h, p, k);
    DivUnique(a + BASE * h, BASE, h, a);
  }

  /** One limb's worth of digits in a power-of-two radix, and the shift to the next. */
  method ShiftOutDigits(a: Mpb, radix: nat)
    requires a.Valid() && a.Normal() && 2 <= radix <= 36 && RadixBits(radix) != 0
    modifies a`len, a.tab
    ensures a.Valid() && a.Normal()
    ensures Pow(radix, DigitsPerLimb(radix)) > 0
    ensures a.Value() == old(a.Value()) / Pow(radix, DigitsPerLimb(radix))
  {
    hide Pow, DigitsPerLimb, RadixBits;
    LimbDigits(radix);
    LowDigits(a.tab[..a.len], radix, 0);
    a.ShrRound(DigitsPerLimb(radix) * RadixBits(radix), Truncate);
  }

  /** The same in any other radix: the digits come out as a remainder. */
  method DivideOutDigits(a: Mpb, radix: nat, ghost n: nat) returns (r: Limb)
    requires a.Valid() && a.Normal() && 2 <= radix <= 36 && RadixBits(radix) == 0 && n <= DigitsPerLimb(radix)
    modifies a`len, a.tab
    ensures a.Valid() && a.Normal()
    ensures Pow(radix, DigitsPerLimb(radix)) > 0
    ensures a.Value() == old(a.Value()) / Pow(radix, DigitsPerLimb(radix))
    ensures DigitString(r, radix, n) == DigitString(old(a.Value()), radix, n)
  {
    hide Pow, DigitsPerLimb, RadixBits, RadixBase, DigitString;
    RadixBaseIsPower(radix);
    ghost var v := a.Value();
    r := MpDiv1(a.tab, a.len, RadixBase(radix), 0);
    DivUnique(v, RadixBase(radix), a.Value(), r);
    a.Renorm();
    PowAdd(radix, n, DigitsPerLimb(radix) - n);
    ModOfMod(v, Pow(radix, n), Pow(radix, DigitsPerLimb(radix) - n));
    DigitStringMod(v, radix, n, r);
  }

  lemma NextDigits(v: nat, radix: nat, k: nat, n: nat, head: string, all: string, tail: string)
    requires 2 <= radix <= 36 && Pow(radix, n) > 0
    requires all == DigitString(v, radix, k + n) + tail && head == DigitString(v, radix, n)
    ensures all == DigitString(v / Pow(radix, n), radix, k) + (head + tail)
  {
    DigitStringSplit(v, radix, k, n);
  }

  /** One round of the digit loop: the n lowest digits go to lo, and are taken off the number if more follow. */
  method FillLimb(buf: array<char>, a: Mpb, radix: nat, lo: nat, n: nat)
    requires a.Valid() && a.Normal() && 2 <= radix <= 36 && lo + n <= buf.Length && n <= DigitsPerLimb(radix)
    requires lo != 0 ==> n == DigitsPerLimb(radix)
    modifies buf, a`len, a.tab
    ensures a.Valid() && a.Normal() && Pow(radix, n) > 0
    ensures buf[lo..lo + n] == DigitString(old(a.Value()), radix, n) && buf[lo + n..] == old(buf[lo + n..])
    ensures lo != 0 ==> a.Value() == old(a.Value()) / Pow(radix, n)
  {
    hide Pow, DigitsPerLimb, RadixBits, RadixBase, DigitString;
    DigitTables(radix);
    PowPositive(radix, n);
    if RadixBits(radix) != 0 {
      LowDigits(a.tab[..a.len], radix, n);
      LimbToA(buf, lo, a.tab[0], radix, n);
      if lo != 0 {
        ShiftOutDigits(a, radix);
      }
    } else {
      var r := DivideOutDigits(a, radix, n);
      LimbToA(buf, lo, r, radix, n);
    }
  }

  lemma OneLimbMore(above: string, above': string, n: nat, k: nat)
    requires n <= |above'| == |above| + n && k <= |above| && above'[n..] == above
    ensures above'[..n + k] == above'[..n] + above[..k]
  {
  }

  /** The digit loop of output_digits, limb by limb from the low end. */
  method FillDigits(buf: array<char>, a: Mpb, radix: nat, nDigits1: nat)
    requires a.Valid() && a.Normal() && 2 <= radix <= 36 && 1 <= nDigits1 <= buf.Length
    modifies buf, a`len, a.tab
    ensures buf[..nDigits1] == DigitString(old(a.Value()), radix, nDigits1)
  {
    hide Pow, DigitsPerLimb, RadixBits, RadixBase, DigitString;
    DigitTables(radix);
    ghost var all := DigitString(a.Value(), radix, nDigits1);
    var nDigits := nDigits1;
    while nDigits != 0
      invariant 0 <= nDigits <= nDigits1 && a.Valid() && a.Normal()
      invariant all == DigitString(a.Value(), radix, nDigits) + buf[nDigits..][..nDigits1 - nDigits]
    {
      var n := if nDigits < DigitsPerLimb(radix) then nDigits else DigitsPerLimb(radix);
      ghost var v, above := a.Value(), buf[nDigits..];
      nDigits := nDigits - n;
      FillLimb(buf, a, radix, nDigits, n);
      ghost var above' := buf[nDigits..];
      assert above'[n..] == above && above'[..n] == buf[nDigits..nDigits + n];
      OneLimbMore(above, above', n, nDigits1 - nDigits - n);
      NextDigits(v, radix, nDigits, n, above'[..n], all, above[..nDigits1 - nDigits - n]);
      if nDigits == 0 {
        NoDigits(v / Pow(radix, n), radix);
        NoDigits(a.Value(), radix);
      }
    }
    NoDigits(a.Value(), radix);
  }

  /** output_digits: the nDigits1 lowest digits of a, with a dot inside if asked for. */
  method OutputDigits(a: Mpb, radix: nat, nDigits1: nat, dotPos: nat) returns (s: string)
    requires a.Valid() && a.Normal() && 2 <= radix <= 36 && 1 <= nDigits1 && dotPos <= nDigits1
    modifies a`len, a.tab
    ensures s == WithDot(DigitString(old(a.Value()), radix, nDigits1), dotPos)
  {
    hide DigitString;
    var buf := new char[nDigits1 + 1];
    FillDigits(buf, a, radix, nDigits1);
    ghost var t := buf[..nDigits1];
    var len := nDigits1;
    if dotPos != nDigits1 {
      forall i | dotPos <= i < nDigits1 {
        buf[i + 1] := buf[i];
      }
      buf[dotPos] := '.';
      len := len + 1;
      assert buf[..dotPos] == t[..dotPos] && buf[dotPos] == '.' && buf[dotPos + 1..len] == t[dotPos..];
      assert buf[..len] == buf[..dotPos] + [buf[dotPos]] + buf[dotPos + 1..len];
    }
    s := buf[..len];
  }
}
