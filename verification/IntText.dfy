/** Integers as text: u32toa, u64toa and u64toa_radix of the fast path of js_dtoa. */
module IntText {
  import opened Arith
  import opened Limbs
  import opened Bignum
  import opened RadixLog
  import opened Powers
  import opened Digits

  /** The shortest digit string of v: no leading zero, and "0" for zero. */
  function Canonical(v: nat, radix: nat): (s: string)
    requires 2 <= radix <= 36
    ensures |s| >= 1
    decreases v
  {
    if v < radix then [DigitChar(v)] else Canonical(v / radix, radix) + [DigitChar(v % radix)]
  }

  /** With the right length, digit strings are canonical. */
  lemma {:induction false} CanonicalLength(v: nat, radix: nat, k: nat)
    requires 2 <= radix <= 36 && k >= 1 && v < Pow(radix, k) && (k == 1 || Pow(radix, k - 1) <= v)
    ensures Canonical(v, radix) == DigitString(v, radix, k)
    decreases k
  {
    hide Pow;
    PowOne(radix);
    if k == 1 {
      CanonicalOne(v, radix);
    } else {
      PowPred(radix, k);
      PowPred(radix, k - 1);
      DivLess(v, radix, Pow(radix, k - 1));
      QuotientLow(v, radix, Pow(radix, k - 2));
      QuotientIsNat(v, radix);
      PowPositive(radix, k - 2);
      MulGe(radix, 1, Pow(radix, k - 2));
      CanonicalLength(v / radix, radix, k - 1);
    }
  }

  lemma CanonicalOne(v: nat, radix: nat)
    requires 2 <= radix <= 36 && v < radix
    ensures Canonical(v, radix) == DigitString(v, radix, 1)
  {
    DivUnique(v, radix, 0, v);
    NoDigits(0, radix);
  }

  lemma QuotientLow(v: nat, d: nat, k: nat)
    requires d > 0 && d * k <= v
    ensures k <= v / d
  {
    if v / d < k {
      MulGe(d, v / d + 1, k);
    }
  }

  /** A canonical string splits into a canonical one and any number of low digits. */
  lemma {:induction false} CanonicalSplit(v: nat, radix: nat, k: nat)
    requires 2 <= radix <= 36 && v >= Pow(radix, k)
    ensures Pow(radix, k) > 0
    ensures Canonical(v, radix) == Canonical(v / Pow(radix, k), radix) + DigitString(v, radix, k)
    decreases k
  {
    hide Pow, Canonical, DigitString;
    PowOne(radix);
    PowPositive(radix, k);
    NoDigits(v, radix);
    if k > 0 {
      SplitStep(v, radix, k - 1);
      PowPred(radix, k);
      QuotientLow(v, radix, Pow(radix, k - 1));
      QuotientIsNat(v, radix);
      PowPositive(radix, k - 1);
      MulGe(radix, 1, Pow(radix, k - 1));
      CanonicalSplit(v / radix, radix, k - 1);
      NestedDivision(v, radix, Pow(radix, k - 1));
    }
  }

  lemma SplitStep(v: nat, radix: nat, k: nat)
    requires 2 <= radix <= 36
    ensures v >= radix ==> Canonical(v, radix) == Canonical(v / radix, radix) + [DigitChar(v % radix)]
    ensures DigitString(v, radix, k + 1) == DigitString(v / radix, radix, k) + [DigitChar(v % radix)]
  {
  }

  lemma {:induction false} CanonicalFirst(v: nat, radix: nat)
    requires 2 <= radix <= 36
    ensures v > 0 ==> ToDigit(Canonical(v, radix)[0]) != 0
    ensures forall i :: 0 <= i < |Canonical(v, radix)| ==> ToDigit(Canonical(v, radix)[i]) < radix
    decreases v
  {
    if v < radix {
      DigitCharReads(v);
    } else {
      CanonicalFirst(v / radix, radix);
      DigitCharReads(v % radix);
    }
  }

  /** Reading a canonical string gives the number back. */
  lemma {:induction false} CanonicalValue(v: nat, radix: nat)
    requires 2 <= radix <= 36
    ensures DigitsValue(DigitsOf(Canonical(v, radix)), radix) == v
    decreases v
  {
    hide DigitsValue, DigitsOf, Canonical;
    CanonicalStep(v, radix);
    if v < radix {
      OneDigitText(v, radix);
    } else {
      QuotientIsNat(v, radix);
      QuotientSmall(v, radix);
      CanonicalValue(v / radix, radix);
      DigitsOfAppend(Canonical(v / radix, radix), [DigitChar(v % radix)]);
      OneDigitText(v % radix, radix);
      SnocDigit(DigitsOf(Canonical(v / radix, radix)), v % radix, radix);
    }
  }

  lemma CanonicalStep(v: nat, radix: nat)
    requires 2 <= radix <= 36
    ensures Canonical(v, radix) ==
            if v < radix then [DigitChar(v)] else Canonical(v / radix, radix) + [DigitChar(v % radix)]
  {
  }

  lemma QuotientSmall(v: nat, d: nat)
    requires v > 0 && d >= 2
    ensures v / d < v
  {
  }

  lemma OneDigitText(d: nat, radix: nat)
    requires d < 36
    ensures DigitsOf([DigitChar(d)]) == [d] && DigitsValue([d], radix) == d
  {
    DigitCharReads(d);
    assert [d][..0] == [];
  }

  /** The do-while loop of u32toa and u64toa_radix, filling a small buffer from its end. */
  method DivideToText(n: nat, radix: nat, size: nat) returns (s: string)
    requires 2 <= radix <= 36 && size >= 1 && n < Pow(radix, size)
    ensures s == Canonical(n, radix)
  {
    hide Pow, Canonical;
    var buf := new char[size];
    var q := size;
    var rest: nat := n;
    ghost var all := Canonical(n, radix);
    var more := true;
    PowOne(radix);
    while more
      invariant 0 <= q <= size
      invariant more ==> rest < Pow(radix, q) && q >= 1 && all == Canonical(rest, radix) + buf[q..]
      invariant !more ==> all == buf[q..]
      decreases q, more
    {
      ghost var tail := buf[q..];
      q := q - 1;
      buf[q] := DigitChar(rest % radix);
      assert buf[q..] == [DigitChar(rest % radix)] + tail;
      PeelCanonical(all, rest, radix, tail);
      PowPred(radix, q + 1);
      DivLess(rest, radix, Pow(radix, q));
      QuotientIsNat(rest, radix);
      SmallQuotient(rest, radix);
      rest := rest / radix;
      more := rest != 0;
      if more && q == 0 {
        PowOne(radix);
      }
    }
    s := buf[q..];
  }

  lemma SmallQuotient(v: nat, d: nat)
    requires d > 0
    ensures v / d == 0 <==> v < d
  {
    if v >= d {
      QuotientLow(v, d, 1);
    }
  }

  lemma PeelCanonical(all: string, v: nat, radix: nat, tail: string)
    requires 2 <= radix <= 36 && all == Canonical(v, radix) + tail
    ensures v < radix ==> all == [DigitChar(v % radix)] + tail
    ensures v >= radix ==> all == Canonical(v / radix, radix) + ([DigitChar(v % radix)] + tail)
  {
    if v < radix {
      DivUnique(v, radix, 0, v);
    }
  }

  lemma TenDigits()
    ensures Pow(10, 9) == 1_000_000_000 && Pow(10, 10) == 10_000_000_000
  {
    FastPowIsPow(10, 9);
    FastPowIsPow(10, 10);
    assert FastPow(10, 9) == 1_000_000_000 && FastPow(10, 10) == 10_000_000_000;
  }

  method U32ToA(n: nat) returns (s: string)
    requires n < BASE
    ensures s == Canonical(n, 10)
  {
    hide Pow, Canonical;
    TenDigits();
    s := DivideToText(n, 10, 10);
  }

  /** Nine decimal digits with leading zeros. */
  method NineDigits(n: nat) returns (s: string)
    ensures s == DigitString(n, 10, 9)
  {
    var buf := new char[9];
    LimbToA(buf, 0, n, 10, 9);
    s := buf[..];
  }

  lemma SplitNine(n: nat)
    requires n >= 1_000_000_000
    ensures Canonical(n, 10) == Canonical(n / 1_000_000_000, 10) + DigitString(n % 1_000_000_000, 10, 9)
  {
    hide Pow, Canonical, DigitString;
    TenDigits();
    CanonicalSplit(n, 10, 9);
    ModOnce(n, 1_000_000_000);
    DigitStringMod(n, 10, 9, n % 1_000_000_000);
  }

  lemma ModOnce(n: nat, d: nat)
    requires d > 0
    ensures n % d % d == n % d
  {
    DivUnique(n % d, d, 0, n % d);
  }

  /** At most two digits. */
  lemma TwoDigits(n: nat)
    requires n < 100
    ensures Canonical(n, 10) ==
            (if n >= 10 then [DigitChar(n / 10)] else "") + [DigitChar(n % 10)]
  {
  }

  method U64ToA(n: nat) returns (s: string)
    requires n < DBASE
    ensures s == Canonical(n, 10)
  {
    hide Canonical, DigitString;
    if n < BASE {
      s := U32ToA(n);
    } else {
      SplitNine(n);
      var n1 := n / 1_000_000_000;
      var n0 := n % 1_000_000_000;
      if n1 >= BASE {
        SplitNine(n1);
        var n2 := n1 / 1_000_000_000;
        n1 := n1 % 1_000_000_000;
        TwoDigits(n2);
        s := "";
        if n2 >= 10 {
          s := s + [DigitChar(n2 / 10)];
          n2 := n2 % 10;
        }
        s := s + [DigitChar(n2)];
        var t := NineDigits(n1);
        s := s + t;
      } else {
        s := U32ToA(n1);
      }
      var t := NineDigits(n0);
      s := s + t;
    }
  }

  /** The number of digits of n in radix 2^bits, computed from its bit length. */
  lemma BinaryLength(n: nat, bits: nat, t: nat, l: nat)
    requires bits >= 1 && Pow(2, t) <= n < Pow(2, t + 1) && l == (t + 1 + bits - 1) / bits
    ensures l >= 1 && Pow(Pow(2, bits), l - 1) <= n < Pow(Pow(2, bits), l)
  {
    hide Pow;
    CeilBounds(t + 1, bits, l);
    PowOfPow(2, bits, l);
    PowOfPow(2, bits, l - 1);
    PowMono(2, t + 1, bits * l);
    PowMono(2, bits * (l - 1), t);
  }

  lemma CeilBounds(n: nat, d: nat, l: nat)
    requires d >= 1 && n >= 1 && l == (n + d - 1) / d
    ensures l >= 1 && d * (l - 1) < n <= d * l
  {
    if l < 1 {
      DivLess(n + d - 1, d, 1);
    }
  }

  method U64ToARadix(n: nat, radix: nat) returns (s: string)
    requires n < DBASE && 2 <= radix <= 36
    ensures s == Canonical(n, radix)
  {
    hide Pow, Canonical, DigitString;
    if radix == 10 {
      s := U64ToA(n);
    } else if RadixBits(radix) != 0 {
      var bits := RadixBits(radix);
      RadixIsPower(radix);
      var l := 1;
      PowOne(radix);
      if n != 0 {
        WordBits();
        var t := TopBitFrom(n, 63);
        l := (t + 1 + bits - 1) / bits;
        BinaryLength(n, bits, t, l);
      }
      CanonicalLength(n, radix, l);
      var buf := new char[l];
      LimbToA(buf, 0, n, radix, l);
      s := buf[..];
    } else {
      LongestText(radix);
      s := DivideToText(n, radix, 41);
    }
  }

  lemma WordBits()
    ensures Pow(2, 64) == DBASE
  {
    FastPowIsPow(2, 64);
    assert FastPow(2, 64) == DBASE;
  }

  /** 41 digits hold any 64-bit number in radix 3 and above. */
  lemma LongestText(radix: nat)
    requires 3 <= radix
    ensures DBASE <= Pow(radix, 41)
  {
    hide Pow;
    FastPowIsPow(3, 41);
    assert FastPow(3, 41) >= DBASE;
    PowBaseMono(3, radix, 41);
  }
}
