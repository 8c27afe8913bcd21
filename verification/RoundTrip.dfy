/** Printing and parsing fit together: the text of js_dtoa denotes exactly the digits chosen,
    and js_atod reads the free format back as the same float64. */
module RoundTrip {
  import opened Arith
  import opened Limbs
  import opened Rounding
  import opened RadixLog
  import opened Powers
  import opened Scaling
  import opened Float64
  import opened ToFloat64
  import opened ReadBack
  import opened FreeDigits
  import opened Capacity
  import opened DtoaFree
  import opened CorrectRounding
  import opened Digits
  import opened Numeral
  import opened AtodDigits
  import opened AtodValue
  import opened Atod
  import opened IntText
  import opened DtoaFormats
  import opened Dtoa

  // ----- reading a plain number -----

  /** Only digits of the radix, as js_dtoa writes them. */
  ghost predicate DigitText(t: string, radix: nat) {
    forall i :: 0 <= i < |t| ==> ToDigit(t[i]) < radix && !('A' <= t[i] <= 'Z')
  }

  lemma DigitTextAppend(a: string, b: string, radix: nat)
    requires DigitText(a, radix) && DigitText(b, radix)
    ensures DigitText(a + b, radix)
  {
  }

  /** t stands at position p of s. */
  ghost predicate Stands(s: string, p: nat, t: string) {
    p + |t| <= |s| && s[p..p + |t|] == t
  }

  lemma StandsAt(s: string, p: nat, t: string, i: nat)
    requires Stands(s, p, t) && i < |t|
    ensures At(s, p + i) == t[i]
  {
    assert s[p..p + |t|][i] == t[i];
  }

  lemma StandsSplit(s: string, p: nat, a: string, b: string)
    requires Stands(s, p, a + b)
    ensures Stands(s, p, a) && Stands(s, p + |a|, b)
  {
    assert s[p..p + |a|] == (a + b)[..|a|];
    assert s[p + |a|..p + |a| + |b|] == (a + b)[|a|..];
  }

  lemma HeadTail(s: string, p: nat, t: string)
    requires Stands(s, p, t) && |t| >= 1
    ensures At(s, p) == t[0] && Stands(s, p + 1, t[1..])
    ensures [ToDigit(t[0])] + DigitsOf(t[1..]) == DigitsOf(t)
  {
    assert t == t[..1] + t[1..];
    StandsSplit(s, p, t[..1], t[1..]);
  }

  lemma FirstIsDigit(t: string, radix: nat)
    requires |t| >= 1 && DigitText(t, radix)
    ensures ToDigit(t[0]) < radix && !('A' <= t[0] <= 'Z') && DigitText(t[1..], radix)
  {
  }

  lemma NoDigitsOf(t: string)
    requires |t| == 0
    ensures DigitsOf(t) == []
  {
  }

  lemma PrependDigit(x: nat, ds: seq<nat>, all: seq<nat>, rest: seq<nat>)
    requires [x] + ds == all
    ensures [x] + (ds + rest) == all + rest
    ensures [] + rest == rest
  {
  }

  /** A run of digits is read digit by digit. */
  lemma {:induction false} ScanRun(s: string, p: nat, st: Style, dot: int, count: nat, t: string)
    requires 2 <= st.radix <= 36 && Stands(s, p, t) && DigitText(t, st.radix)
    ensures var r := ScanDigits(s, p + |t|, st, dot, count + |t|);
            ScanDigits(s, p, st, dot, count) == Scan(DigitsOf(t) + r.digits, r.dot, r.next)
    decreases |t|
  {
    hide ScanDigits, ScanDigit, Stands, DigitsOf, DigitText;
    var r := ScanDigits(s, p + |t|, st, dot, count + |t|);
    if |t| == 0 {
      NoDigitsOf(t);
      PrependDigit(0, [], [0], r.digits);
    } else {
      HeadTail(s, p, t);
      FirstIsDigit(t, st.radix);
      ScanRound(s, p, st, dot, count);
      DigitRound(s, p, st, dot, count, p);
      ScanRun(s, p + 1, st, dot, count + 1, t[1..]);
      PrependDigit(ToDigit(t[0]), DigitsOf(t[1..]), DigitsOf(t), r.digits);
    }
  }

  /** Neither a digit nor a dot nor a separator: the digits end. */
  lemma ScanEnd(s: string, p: nat, st: Style, dot: int, count: nat)
    requires 2 <= st.radix <= 36 && ToDigit(At(s, p)) >= st.radix && At(s, p) != '.' && At(s, p) != '_'
    ensures ScanDigits(s, p, st, dot, count) == Scan([], dot, p)
  {
  }

  /** digits a, then possibly a dot and digits b, then an exponent or nothing. */
  function Plain(a: string, b: string): string {
    if b == "" then a else a + "." + b
  }

  /** What follows the digits cannot be taken for part of them. */
  predicate Ends(s: string, p: nat, radix: nat) {
    ToDigit(At(s, p)) >= radix && At(s, p) != '.' && At(s, p) != '_'
  }

  lemma NothingBehind(ds: seq<nat>)
    ensures ds + [] == ds
  {
  }

  lemma ScanWithDot(s: string, p: nat, st: Style, a: string, b: string)
    requires 2 <= st.radix <= 36 && p >= st.start && !st.intOnly
    requires |a| >= 1 && |b| >= 1 && DigitText(a, st.radix) && DigitText(b, st.radix)
    requires Stands(s, p, a) && At(s, p + |a|) == '.' && Stands(s, p + |a| + 1, b) && Ends(s, p + |a| + 1 + |b|, st.radix)
    ensures ScanDigits(s, p, st, -1, 0) == Scan(DigitsOf(a) + DigitsOf(b), |a|, p + |a| + 1 + |b|)
  {
    hide ScanDigits, ScanDigit, Stands, DigitsOf, DigitText;
    var q := p + |a|;
    HeadTail(s, q + 1, b);
    FirstIsDigit(b, st.radix);
    ScanRun(s, p, st, -1, 0, a);
    ScanRound(s, q, st, -1, |a|);
    ScanRound(s, q + 1, st, |a|, |a|);
    ScanRun(s, q + 1, st, |a|, |a|, b);
    ScanEnd(s, q + 1 + |b|, st, |a|, |a| + |b|);
    NothingBehind(DigitsOf(b));
  }

  lemma ScanPlain(s: string, p: nat, st: Style, a: string, b: string)
    requires 2 <= st.radix <= 36 && p >= st.start && !st.intOnly
    requires |a| >= 1 && DigitText(a, st.radix) && DigitText(b, st.radix)
    requires Stands(s, p, Plain(a, b)) && Ends(s, p + |Plain(a, b)|, st.radix)
    ensures var r := ScanDigits(s, p, st, -1, 0);
            r.digits == DigitsOf(a + b) && FractionDigits(r) == |b| && r.next == p + |Plain(a, b)|
  {
    hide ScanDigits, ScanDigit, Stands, DigitsOf, DigitText, Ends;
    NothingBehind(DigitsOf(a));
    DigitsOfAppend(a, b);
    if |b| == 0 {
      NoDigitsOf(b);
      ScanRun(s, p, st, -1, 0, a);
      EndsHere(s, p + |a|, st, -1, |a|);
    } else {
      StandsSplit(s, p, a + ".", b);
      StandsSplit(s, p, a, ".");
      StandsAt(s, p + |a|, ".", 0);
      ScanWithDot(s, p, st, a, b);
    }
  }

  lemma EndsHere(s: string, p: nat, st: Style, dot: int, count: nat)
    requires 2 <= st.radix <= 36 && Ends(s, p, st.radix)
    ensures ScanDigits(s, p, st, dot, count) == Scan([], dot, p)
  {
    ScanEnd(s, p, st, dot, count);
  }

  // ----- reading an exponent -----

  lemma {:induction false} DecimalRun(s: string, p: nat, sep: bool, t: string)
    requires Stands(s, p, t) && DigitText(t, 10) && p + |t| == |s|
    ensures ScanDecimal(s, p, sep) == (DigitsOf(t), |s|)
    decreases |t|
  {
    hide ScanDecimal, Stands, DigitText, DigitsOf;
    if |t| == 0 {
      DecimalRound(s, p, sep, p);
      NoDigitsOf(t);
    } else {
      HeadTail(s, p, t);
      FirstIsDigit(t, 10);
      DecimalRound(s, p, sep, p);
      DecimalRun(s, p + 1, sep, t[1..]);
    }
  }

  /** The marker of js_dtoa is one js_atod understands, and p is used for powers of two up to 16. */
  lemma MarkerUnderstood(radix: nat)
    requires 2 <= radix <= 36
    ensures Marker(radix) == 'e' <==> radix == 10
    ensures Marker(radix) == 'p' ==> 1 <= RadixBits(radix) == Ctz32(radix) <= 4
    ensures Marker(radix) == 'e' || Marker(radix) == 'p' || Marker(radix) == '@'
    ensures ToDigit(Marker(radix)) >= radix
  {
    if Marker(radix) == 'p' {
      PowerOfTwoMarker(radix, Ctz32(radix));
    }
  }

  lemma PowerOfTwoMarker(radix: nat, k: nat)
    requires 2 <= radix <= 36 && Radix1(radix) == 1 && k == Ctz32(radix) <= 4
    ensures 1 <= RadixBits(radix) == k <= 4 && radix <= 16
  {
    hide Radix1, Ctz32;
    RadixParts(radix);
    FastPowIsPow(2, k);
  }

  lemma ScanExponentText(s: string, p: nat, st: Style, E: int)
    requires 2 <= st.radix <= 36 && p > st.start && !st.intOnly
    requires Stands(s, p, ExponentText(st.radix, E)) && p + |ExponentText(st.radix, E)| == |s|
    ensures var x := Magnified(st.radix, E);
            ScanExponent(s, p, st) == Exponent(x < 0, Marker(st.radix) == 'p', DigitsOf(Canonical(AbsInt(x), 10)), |s|)
  {
    hide Marker, Magnified, ScanDecimal, Canonical, RadixBits, Stands, DigitText, DigitsOf;
    var x := Magnified(st.radix, E);
    var mark, sign, t := [Marker(st.radix)], if x < 0 then "-" else "+", Canonical(AbsInt(x), 10);
    MarkerUnderstood(st.radix);
    StandsSplit(s, p, mark + sign, t);
    StandsSplit(s, p, mark, sign);
    StandsAt(s, p, mark, 0);
    StandsAt(s, p + 1, sign, 0);
    CanonicalText(AbsInt(x), 10);
    HeadTail(s, p + 2, t);
    FirstIsDigit(t, 10);
    DecimalRun(s, p + 3, st.sep, t[1..]);
  }

  lemma {:induction false} CanonicalText(v: nat, radix: nat)
    requires 2 <= radix <= 36
    ensures DigitText(Canonical(v, radix), radix)
    decreases v
  {
    if v < radix {
      DigitCharReads(v);
    } else {
      QuotientSmall(v, radix);
      CanonicalText(v / radix, radix);
      DigitCharReads(v % radix);
    }
  }

  lemma {:induction false} DigitStringText(v: nat, radix: nat, n: nat)
    requires 2 <= radix <= 36
    ensures DigitText(DigitString(v, radix, n), radix)
    decreases n
  {
    if n > 0 {
      DigitStringText(v / radix, radix, n - 1);
      DigitCharReads(v % radix);
    }
  }

  // ----- reading the whole text -----

  lemma PrefixOfText(s: string, p: nat, radix: nat, flags: Flags)
    requires 2 <= radix <= 36 && ToDigit(At(s, p)) < radix && !('A' <= At(s, p) <= 'Z')
    requires radix == 16 ==> At(s, p + 1) != 'x' && At(s, p + 1) != 'X'
    ensures Prefix(s, p, radix, flags) == Begin(p, radix, flags.underscores)
  {
    hide SkipOctal;
    assert "Infinity"[0] == 'I';
    assert p < |s| ==> s[p..][0] == s[p];
  }

  /** The exponent part of a text, if any. */
  datatype Suffix = NoSuffix | HasSuffix(E: int)

  function SuffixText(radix: nat, suffix: Suffix): string
    requires radix > 0
  {
    if suffix.NoSuffix? then "" else ExponentText(radix, suffix.E)
  }

  ghost function TextOf(negative: bool, radix: nat, a: string, b: string, suffix: Suffix): string
    requires radix > 0
  {
    SignText(negative) + (Plain(a, b) + SuffixText(radix, suffix))
  }

  /** What js_atod's reading makes of such a text. */
  ghost function Meaning(negative: bool, radix: nat, a: string, b: string, suffix: Suffix): Numeral
    requires radix > 0
  {
    Number(negative, radix, DigitsOf(a + b), |b|,
           if suffix.NoSuffix? then 0 else Magnified(radix, suffix.E),
           suffix.HasSuffix? && Marker(radix) == 'p',
           |TextOf(negative, radix, a, b, suffix)|)
  }

  lemma TextStarts(negative: bool, radix: nat, a: string, b: string, suffix: Suffix)
    requires 2 <= radix <= 36 && |a| >= 1 && DigitText(a, radix) && DigitText(b, radix)
    ensures var s := TextOf(negative, radix, a, b, suffix); var p := |SignText(negative)|;
            && AfterSign(s) == p && (At(s, 0) == '-' <==> negative)
            && Stands(s, p, Plain(a, b)) && Stands(s, p + |Plain(a, b)|, SuffixText(radix, suffix))
            && p + |Plain(a, b)| + |SuffixText(radix, suffix)| == |s|
            && At(s, p) == a[0]
            && (radix == 16 ==> At(s, p + 1) != 'x' && At(s, p + 1) != 'X')
  {
    hide Marker, ExponentText, DigitText, Stands, SuffixText, Plain;
    var s, p := TextOf(negative, radix, a, b, suffix), |SignText(negative)|;
    var t, u := Plain(a, b), SuffixText(radix, suffix);
    StandsWhole(s);
    StandsSplit(s, 0, SignText(negative), t + u);
    StandsSplit(s, p, t, u);
    PlainStart(a, b);
    StandsAt(s, p, t, 0);
    FirstIsDigit(a, radix);
    if negative {
      StandsAt(s, 0, "-", 0);
    }
    if radix == 16 {
      SecondChar(s, p, a, b, suffix);
    }
  }

  lemma PlainStart(a: string, b: string)
    requires |a| >= 1
    ensures |Plain(a, b)| >= 1 && Plain(a, b)[0] == a[0]
  {
  }

  lemma StandsWhole(s: string)
    ensures Stands(s, 0, s)
  {
    assert s[0..|s|] == s;
  }

  lemma SecondChar(s: string, p: nat, a: string, b: string, suffix: Suffix)
    requires |a| >= 1 && DigitText(a, 16) && DigitText(b, 16)
    requires Stands(s, p, Plain(a, b)) && Stands(s, p + |Plain(a, b)|, SuffixText(16, suffix))
    requires p + |Plain(a, b)| + |SuffixText(16, suffix)| == |s|
    ensures At(s, p + 1) != 'x' && At(s, p + 1) != 'X'
  {
    hide Marker;
    MarkerUnderstood(16);
    if |Plain(a, b)| >= 2 {
      StandsAt(s, p, Plain(a, b), 1);
    } else if suffix.HasSuffix? {
      StandsAt(s, p + 1, SuffixText(16, suffix), 0);
    }
  }

  lemma SuffixEnds(s: string, p: nat, radix: nat, suffix: Suffix)
    requires 2 <= radix <= 36 && Stands(s, p, SuffixText(radix, suffix)) && p + |SuffixText(radix, suffix)| == |s|
    ensures Ends(s, p, radix)
  {
    hide Marker;
    MarkerUnderstood(radix);
    if suffix.HasSuffix? {
      StandsAt(s, p, SuffixText(radix, suffix), 0);
    }
  }

  lemma ScanSuffix(s: string, p: nat, st: Style, suffix: Suffix)
    requires 2 <= st.radix <= 36 && p > st.start && !st.intOnly
    requires Stands(s, p, SuffixText(st.radix, suffix)) && p + |SuffixText(st.radix, suffix)| == |s|
    ensures var e := ScanExponent(s, p, st);
            if suffix.NoSuffix? then e == NoExponent
            else e.Exponent? && ExponentValue(e) == Magnified(st.radix, suffix.E) && e.next == |s|
                 && (e.binary <==> Marker(st.radix) == 'p')
  {
    hide Marker, Magnified, Canonical, ScanDecimal, DigitsValue, ExponentText;
    if suffix.HasSuffix? {
      var x := Magnified(st.radix, suffix.E);
      ScanExponentText(s, p, st, suffix.E);
      CanonicalValue(AbsInt(x), 10);
    }
  }

  /** Every text of this shape is read completely, with any flags that allow fractions. */
  lemma ReadText(negative: bool, radix: nat, flags: Flags, a: string, b: string, suffix: Suffix)
    requires 2 <= radix <= 36 && !flags.intOnly && |a| >= 1 && DigitText(a, radix) && DigitText(b, radix)
    ensures Read(TextOf(negative, radix, a, b, suffix), radix, flags) == Meaning(negative, radix, a, b, suffix)
  {
    hide Prefix, ScanDigits, ScanExponent, ExponentValue, Plain, ExponentText, Stands, DigitText, Marker, Magnified;
    var s, p := TextOf(negative, radix, a, b, suffix), |SignText(negative)|;
    var q := p + |Plain(a, b)|;
    var st := Style(p, radix, flags.underscores, false);
    TextStarts(negative, radix, a, b, suffix);
    FirstIsDigit(a, radix);
    PrefixOfText(s, p, radix, flags);
    SuffixEnds(s, q, radix, suffix);
    ScanPlain(s, p, st, a, b);
    PlainLonger(a, b);
    ScanSuffix(s, q, st, suffix);
  }

  lemma PlainLonger(a: string, b: string)
    ensures |Plain(a, b)| >= |a|
  {
  }

  // ----- what the texts denote -----

  /** Read in the radix it was printed in, the whole text is a numeral for exactly x. */
  ghost predicate Denotes(s: string, radix: nat, negative: bool, x: real)
    requires 2 <= radix <= 36
  {
    forall flags: Flags :: !flags.intOnly ==> DenotesWith(Read(s, radix, flags), |s|, radix, negative, x)
  }

  ghost predicate DenotesWith(n: Numeral, length: nat, radix: nat, negative: bool, x: real)
    requires radix > 0
  {
    && n.Number? && n.negative == negative && n.radix == radix && n.next == length
    && Magnitude(DigitsValue(n.digits, radix), radix, n.fraction, n.exponent, n.binary) == x
  }

  /** None of the digits that js_atod drops matters. */
  ghost predicate Short(s: string, radix: nat)
    requires 2 <= radix <= 36
  {
    forall flags: Flags :: !flags.intOnly ==> ShortNumeral(Read(s, radix, flags), radix)
  }

  ghost predicate ShortNumeral(n: Numeral, radix: nat) {
    n.Number? && Significand(radix, n.digits) == DigitsValue(n.digits, radix)
  }

  /** A text of the given shape, its value and its digits. */
  lemma TextDenotes(negative: bool, radix: nat, a: string, b: string, suffix: Suffix, x: real)
    requires 2 <= radix <= 36 && |a| >= 1 && DigitText(a, radix) && DigitText(b, radix)
    requires var n := Meaning(negative, radix, a, b, suffix);
             Magnitude(DigitsValue(n.digits, radix), radix, n.fraction, n.exponent, n.binary) == x
    ensures Denotes(TextOf(negative, radix, a, b, suffix), radix, negative, x)
    ensures ShortNumeral(Meaning(negative, radix, a, b, suffix), radix) ==> Short(TextOf(negative, radix, a, b, suffix), radix)
  {
    hide Read, TextOf, Magnitude, DigitsValue, DigitText, ShortNumeral;
    forall flags: Flags | !flags.intOnly
      ensures Read(TextOf(negative, radix, a, b, suffix), radix, flags) == Meaning(negative, radix, a, b, suffix)
    {
      ReadText(negative, radix, flags, a, b, suffix);
    }
  }

  // ----- digits that do not matter -----

  lemma {:induction false} LeadingZerosAtLeast(z: nat, ds: seq<nat>)
    ensures LeadingZeros(Zeros(z) + ds) >= z
  {
    if z > 0 {
      LeadingZerosAtLeast(z - 1, ds);
      assert (Zeros(z) + ds)[1..] == Zeros(z - 1) + ds;
    }
  }

  /** Zeros around few enough digits change nothing. */
  lemma ShortDigits(radix: nat, z: nat, ds: seq<nat>, t: nat)
    requires 2 <= radix <= 36 && |ds| <= AtodMaxDigits(radix)
    ensures var all := Zeros(z) + (ds + Zeros(t)); Significand(radix, all) == DigitsValue(all, radix)
  {
    hide Pow, DigitsValue, AtodMaxDigits, RadixBits, LeadingZeros;
    var all := Zeros(z) + (ds + Zeros(t));
    var k := KeptDigits(radix, all);
    PowOne(radix);
    assert all == all[..k] + all[k..];
    DigitsAppend(all[..k], all[k..], radix);
    LeadingZerosAtLeast(z, ds + Zeros(t));
    if k < |all| {
      assert forall i :: 0 <= i < |all| - k ==> all[k..][i] == 0;
    }
    ZeroDigits(all[k..], radix);
  }

  lemma DigitsOfRepeat(n: nat)
    ensures DigitsOf(Repeat('0', n)) == Zeros(n) && DigitText(Repeat('0', n), 2)
  {
  }

  lemma DigitTextLarger(t: string, r: nat, radix: nat)
    requires DigitText(t, r) && r <= radix
    ensures DigitText(t, radix)
  {
  }

  lemma DigitTextSlice(t: string, radix: nat, k: nat)
    requires DigitText(t, radix) && k <= |t|
    ensures DigitText(t[..k], radix) && DigitText(t[k..], radix) && t[..k] + t[k..] == t
  {
  }

  /** v * radix^k behind zeros. */
  lemma PaddedValue(radix: nat, z: nat, ds: seq<nat>, t: nat)
    requires radix > 0
    ensures DigitsValue(Zeros(z) + (ds + Zeros(t)), radix) == DigitsValue(ds, radix) * Pow(radix, t)
  {
    hide Pow, DigitsValue;
    ZerosCountNothing(z, ds + Zeros(t), radix);
    DigitsAppend(ds, Zeros(t), radix);
    ZeroDigits(Zeros(t), radix);
  }

  // ----- layouts -----

  /** The parts of a layout: the digits before and behind the dot, the exponent, and the numbers
      of zeros around the printed digits. */
  datatype Shape = Shape(a: string, b: string, suffix: Suffix, before: nat, behind: nat)

  function ShapeOf(digits: string, radix: nat, E: int, exponential: bool): Shape
    requires |digits| >= 1
  {
    var P := |digits|;
    if exponential then Shape(digits[..1], digits[1..], HasSuffix(E - 1), 0, 0)
    else if E <= 0 then Shape("0", Repeat('0', -E) + digits, NoSuffix, 1 - E, 0)
    else if E < P then Shape(digits[..E], digits[E..], NoSuffix, 0, 0)
    else Shape(digits + Repeat('0', E - P), "", NoSuffix, 0, E - P)
  }

  lemma ShapeFits(negative: bool, digits: string, radix: nat, E: int, exponential: bool)
    requires |digits| >= 1 && 2 <= radix <= 36 && DigitText(digits, radix)
    ensures var h := ShapeOf(digits, radix, E, exponential);
            && |h.a| >= 1 && DigitText(h.a, radix) && DigitText(h.b, radix)
            && SignText(negative) + Layout(digits, radix, E, exponential) == TextOf(negative, radix, h.a, h.b, h.suffix)
            && DigitsOf(h.a + h.b) == Zeros(h.before) + (DigitsOf(digits) + Zeros(h.behind))
  {
    hide ExponentText, DigitText;
    var P := |digits|;
    if exponential {
      DigitTextSlice(digits, radix, 1);
      assert DigitsOf(digits) == Zeros(0) + (DigitsOf(digits) + Zeros(0));
    } else if E <= 0 {
      ShapeSmall(digits, radix, -E);
    } else if E < P {
      DigitTextSlice(digits, radix, E);
      assert DigitsOf(digits) == Zeros(0) + (DigitsOf(digits) + Zeros(0));
      assert SignText(negative) + WithDot(digits, E) == SignText(negative) + (WithDot(digits, E) + "");
    } else {
      ShapeLarge(digits, radix, E - P);
      var t := digits + Repeat('0', E - P);
      assert t + "" == t;
      assert SignText(negative) + t == SignText(negative) + (t + "");
    }
  }

  lemma ShapeSmall(digits: string, radix: nat, k: nat)
    requires 2 <= radix <= 36 && DigitText(digits, radix) && |digits| >= 1
    ensures DigitText("0", radix) && DigitText(Repeat('0', k) + digits, radix)
    ensures "0." + Repeat('0', k) + digits == Plain("0", Repeat('0', k) + digits) + ""
    ensures DigitsOf("0" + (Repeat('0', k) + digits)) == Zeros(k + 1) + (DigitsOf(digits) + Zeros(0))
  {
    DigitsOfRepeat(k);
    DigitTextLarger(Repeat('0', k), 2, radix);
    DigitTextAppend(Repeat('0', k), digits, radix);
  }

  lemma ShapeLarge(digits: string, radix: nat, k: nat)
    requires 2 <= radix <= 36 && DigitText(digits, radix)
    ensures DigitText(digits + Repeat('0', k), radix) && DigitText("", radix)
    ensures DigitsOf(digits + Repeat('0', k)) == Zeros(0) + (DigitsOf(digits) + Zeros(k))
  {
    DigitsOfRepeat(k);
    DigitTextLarger(Repeat('0', k), 2, radix);
    DigitTextAppend(digits, Repeat('0', k), radix);
    DigitsOfAppend(digits, Repeat('0', k));
  }

  /** The layout of P digits denotes their value times radix^(E - P). */
  lemma ShapeValue(v: nat, radix: nat, digits: string, E: int, exponential: bool)
    requires |digits| >= 1 && 2 <= radix <= 36
    ensures var h := ShapeOf(digits, radix, E, exponential);
            Magnitude(v * Pow(radix, h.behind), radix, |h.b|,
                      if h.suffix.NoSuffix? then 0 else Magnified(radix, h.suffix.E),
                      h.suffix.HasSuffix? && Marker(radix) == 'p')
            == Scale(v as real, radix, E - |digits|)
  {
    hide Pow, Scale, Marker, Magnitude;
    var h := ShapeOf(digits, radix, E, exponential);
    PowOne(radix);
    if exponential && Marker(radix) == 'p' {
      BinaryExponentValue(v, radix, |h.b|, E - 1);
    } else {
      MagnitudeOf(v, h.behind, radix, |h.b|, if exponential then E - 1 else 0);
    }
  }

  /** Exponents that count powers of two. */
  lemma BinaryExponentValue(v: nat, radix: nat, fraction: nat, E: int)
    requires 2 <= radix <= 36 && Marker(radix) == 'p'
    ensures Magnitude(v, radix, fraction, E * Ctz32(radix), true) == Scale(v as real, radix, E - fraction)
  {
    hide Pow, Scale, Marker, Ctz32, RadixBits;
    var b := RadixBits(radix);
    MarkerUnderstood(radix);
    RadixIsPower(radix);
    BinaryMagnitude(v, radix, fraction, E * b, true);
    ProductOut(b, fraction, E);
    ScaleOfPow(v as real, 2, b, E - fraction, b * (E - fraction));
  }

  lemma LayoutDenotes(negative: bool, mant: nat, P: nat, radix: nat, E: int, exponential: bool)
    requires 2 <= radix <= 36 && P >= 1 && mant < Pow(radix, P)
    ensures var s := SignText(negative) + Layout(DigitString(mant, radix, P), radix, E, exponential);
            && Denotes(s, radix, negative, DigitValue(mant, radix, E, P))
            && (P <= AtodMaxDigits(radix) ==> Short(s, radix))
  {
    hide Pow, Scale, Layout, ShapeOf, TextOf, Denotes, Short, DigitString, DigitText, DigitsValue, Magnitude;
    hide AtodMaxDigits, Significand, Magnified, Marker;
    var digits := DigitString(mant, radix, P);
    DigitStringText(mant, radix, P);
    DigitStringValue(mant, radix, P);
    DivUnique(mant, Pow(radix, P), 0, mant);
    ShapeFits(negative, digits, radix, E, exponential);
    var h := ShapeOf(digits, radix, E, exponential);
    PaddedValue(radix, h.before, DigitsOf(digits), h.behind);
    ShapeValue(mant, radix, digits, E, exponential);
    if P <= AtodMaxDigits(radix) {
      ShortDigits(radix, h.before, DigitsOf(digits), h.behind);
    }
    TextDenotes(negative, radix, h.a, h.b, h.suffix, DigitValue(mant, radix, E, P));
  }

  /** A text that is a canonical integer. */
  lemma IntegerDenotes(negative: bool, v: nat, radix: nat, k: nat)
    requires 2 <= radix <= 36 && v < Pow(radix, k)
    ensures var s := SignText(negative) + Canonical(v, radix);
            && Denotes(s, radix, negative, v as real)
            && (1 <= k <= AtodMaxDigits(radix) ==> Short(s, radix))
  {
    hide Pow, Scale, TextOf, Denotes, Short, DigitText, DigitsValue, Magnitude, AtodMaxDigits, Significand;
    hide Magnified, Marker, Canonical;
    var a := Canonical(v, radix);
    CanonicalText(v, radix);
    CanonicalValue(v, radix);
    assert a + "" == a;
    EmptyText(radix);
    UnscaledMagnitude(v, radix);
    if 1 <= k <= AtodMaxDigits(radix) {
      CanonicalShort(v, radix, k);
      ShortDigits(radix, 0, DigitsOf(a), 0);
      assert Zeros(0) + (DigitsOf(a) + Zeros(0)) == DigitsOf(a);
    }
    TextDenotes(negative, radix, a, "", NoSuffix, v as real);
    IntegerText(negative, radix, a);
  }

  lemma EmptyText(radix: nat)
    ensures DigitText("", radix)
  {
  }

  lemma UnscaledMagnitude(v: nat, radix: nat)
    requires radix > 0
    ensures Magnitude(v, radix, 0, 0, false) == v as real
  {
    ScaleZero(v as real, radix);
  }

  lemma IntegerText(negative: bool, radix: nat, a: string)
    requires radix > 0
    ensures TextOf(negative, radix, a, "", NoSuffix) == SignText(negative) + a
  {
    assert a + "" == a;
  }

  lemma {:induction false} CanonicalShort(v: nat, radix: nat, k: nat)
    requires 2 <= radix <= 36 && k >= 1 && v < Pow(radix, k)
    ensures |Canonical(v, radix)| <= k
    decreases k
  {
    if v >= radix {
      PowPred(radix, k);
      PowOne(radix);
      DivLess(v, radix, Pow(radix, k - 1));
      QuotientIsNat(v, radix);
      CanonicalShort(v / radix, radix, k - 1);
    }
  }

  // ----- the theorems -----

  lemma MaxDigitsFit(radix: nat)
    requires 2 <= radix <= 36
    ensures 1 <= DtoaMaxDigits(radix) <= AtodMaxDigits(radix)
  {
  }

  /** An exactly printed float64 reads back. */
  lemma ExactReadsBack(m: nat, e: int)
    requires FinitePair(m, e)
    ensures Nearest(Double(m, e), Pack(m, e))
  {
    hide Scale, RPow, OnGridOf, Pack, Nearest;
    PackExact(m, e);
    DoubleBounds(m, e);
    QuarterStep(m, e, Double(m, e));
  }

  lemma SmallIntegerValue(m: nat, e: int, radix: nat)
    requires FinitePair(m, e) && SmallInteger(m, e) && 2 <= radix <= 36
    ensures (m / Pow(2, 53 - e)) as real == Double(m, e)
    ensures m / Pow(2, 53 - e) < Pow(radix, DtoaMaxDigits(radix))
  {
    hide Pow, RPow, Scale, DtoaMaxDigits;
    var p := Pow(2, 53 - e);
    var v := m / p;
    ExactQuotient(m, p);
    ScaleNat(v, 2, 53 - e);
    ScaleAdd(v as real, 2, 53 - e, e - 53);
    ScaleZero(v as real, 2);
    DigitTables(radix);
    TwoTo53();
    PowMono(radix, DtoaMaxDigits(radix) - 1, DtoaMaxDigits(radix));
  }

  /** y reads back as the pattern a, and the text says exactly y. */
  ghost predicate SaysNear(s: string, radix: nat, negative: bool, y: real, a: nat)
    requires 2 <= radix <= 36
  {
    Denotes(s, radix, negative, y) && Short(s, radix) && Nearest(y, a)
  }

  /** Free format: the text denotes a number whose nearest float64 is the one printed. */
  lemma FreeDenotes(negative: bool, m: nat, e: int, radix: nat, mode: ExponentMode, t: string)
    requires FinitePair(m, e) && 2 <= radix <= 36 && PrintedFree(m, e, radix, mode, t)
    ensures exists y :: SaysNear(SignText(negative) + t, radix, negative, y, Pack(m, e))
  {
    hide Pow, FinitePair, Double, Layout, Denotes, Short, Nearest, Pack, Canonical, DigitString, UsesExponent,
         FailsAt, DtoaMaxDigits, AtodMaxDigits;
    MaxDigitsFit(radix);
    if SmallInteger(m, e) && mode != Enabled {
      SmallIntegerValue(m, e, radix);
      ExactReadsBack(m, e);
      IntegerDenotes(negative, m / Pow(2, 53 - e), radix, DtoaMaxDigits(radix));
      assert SaysNear(SignText(negative) + t, radix, negative, Double(m, e), Pack(m, e));
    } else {
      var mant: nat, E: int, P: nat :|
        && Found(m, e, radix, mant, E, P)
        && t == Layout(DigitString(mant, radix, P), radix, E, UsesExponent(Free, mode, radix, P, E));
      LayoutDenotes(negative, mant, P, radix, E, UsesExponent(Free, mode, radix, P, E));
      assert SaysNear(SignText(negative) + t, radix, negative, DigitValue(mant, radix, E, P), Pack(m, e));
    }
  }

  lemma AwayFromZero(x: real)
    ensures x - 0.5 < Round(x, NearestAway) as real <= x + 0.5
  {
  }

  /** Fixed format: the text denotes exactly d rounded to n digits, ties away from zero. */
  lemma FixedDenotes(negative: bool, m: nat, e: int, radix: nat, n: nat, mode: ExponentMode, t: string)
    requires FinitePair(m, e) && 2 <= radix <= 36 && n >= 1 && PrintedFixed(m, e, radix, n, mode, t)
    ensures exists mant: nat, E: int ::
              && Pow(radix, n - 1) <= mant < Pow(radix, n)
              && IsRounding(Double(m, e), radix, n, DigitValue(mant, radix, E, n), NearestAway)
              && Denotes(SignText(negative) + t, radix, negative, DigitValue(mant, radix, E, n))
  {
    hide Pow, FinitePair, Double, Layout, Denotes, DigitString, UsesExponent, RoundedTo, FirstExponent, IsRounding, DigitValue;
    var mant: nat, E: int :|
      && RoundedTo(Double(m, e), radix, FirstExponent(e, radix), n, mant, E, NearestAway)
      && t == Layout(DigitString(mant, radix, n), radix, E, UsesExponent(Fixed, mode, radix, n, E));
    LeadingDigit(m, e, radix, n, mant, E, NearestAway);
    RoundedIsRounding(m, e, radix, n, mant, E, NearestAway);
    RangeOfRounding(m, e, radix, n, mant, E, NearestAway);
    LayoutDenotes(negative, mant, n, radix, E, UsesExponent(Fixed, mode, radix, n, E));
  }

  /** v is x * radix^n rounded to an integer, halves away from zero. */
  ghost predicate NearestScaled(x: real, radix: nat, n: nat, v: nat)
    requires radix > 0
  {
    Scale(x, radix, n) - 0.5 < v as real <= Scale(x, radix, n) + 0.5
  }

  /** Fraction format: the text denotes exactly the integer nearest to d * radix^n, divided by radix^n. */
  lemma FracDenotes(negative: bool, m: nat, e: int, radix: nat, n: nat, t: string)
    requires FinitePair(m, e) && 2 <= radix <= 36 && PrintedFrac(m, e, radix, n, t)
    ensures exists v: nat ::
              && NearestScaled(Double(m, e), radix, n, v)
              && Denotes(SignText(negative) + t, radix, negative, Scale(v as real, radix, 0 - n))
  {
    hide Pow, Scale, Denotes, Double, Round, FracText;
    var v: nat := FracValue(m, e, radix, n);
    AwayFromZero(Scale(Double(m, e), radix, n));
    FracTextDenotes(negative, v, radix, n);
    assert NearestScaled(Double(m, e), radix, n, v);
  }

  lemma FracTextDenotes(negative: bool, v: nat, radix: nat, n: nat)
    requires 2 <= radix <= 36
    ensures Denotes(SignText(negative) + FracText(v, radix, n), radix, negative, Scale(v as real, radix, 0 - n))
  {
    hide Pow, Scale, Denotes, DigitString, Canonical, DigitText, DigitsValue, TextOf, Magnitude;
    PowPositive(radix, n);
    var q := v / Pow(radix, n);
    var a, b := Canonical(q, radix), if n == 0 then "" else DigitString(v, radix, n);
    CanonicalText(q, radix);
    CanonicalValue(q, radix);
    DigitStringText(v, radix, n);
    DigitStringValue(v, radix, n);
    EmptyText(radix);
    NoDigits(v, radix);
    DigitsOfAppend(a, b);
    DigitsAppend(DigitsOf(a), DigitsOf(b), radix);
    assert v == q * Pow(radix, n) + v % Pow(radix, n);
    PowOne(radix);
    MagnitudeOf(v, 0, radix, n, 0);
    TextDenotes(negative, radix, a, b, NoSuffix, Scale(v as real, radix, 0 - n));
    FracIsText(negative, v, radix, n);
  }

  lemma FracIsText(negative: bool, v: nat, radix: nat, n: nat)
    requires 2 <= radix <= 36
    ensures Pow(radix, n) > 0
    ensures SignText(negative) + FracText(v, radix, n) ==
            TextOf(negative, radix, Canonical(v / Pow(radix, n), radix), if n == 0 then "" else DigitString(v, radix, n), NoSuffix)
  {
    hide Pow, DigitString, Canonical;
    PowPositive(radix, n);
    var a, b := Canonical(v / Pow(radix, n), radix), if n == 0 then "" else DigitString(v, radix, n);
    assert Plain(a, b) + "" == Plain(a, b);
    assert FracText(v, radix, n) == Plain(a, b);
  }

  /** What the parser returns for a text that says y. */
  lemma ParsesTo(s: string, radix: nat, flags: Flags, negative: bool, y: real, a: nat, f: Float)
    requires 2 <= radix <= 36 && !flags.intOnly && SaysNear(s, radix, negative, y, a)
    requires Converts(Read(s, radix, flags), f)
    ensures f == Float(negative, a) && Read(s, radix, flags).next == |s|
  {
    hide Read, Magnitude, Significand, DigitsValue, Nearest;
    assert DenotesWith(Read(s, radix, flags), |s|, radix, negative, y);
    assert ShortNumeral(Read(s, radix, flags), radix);
    NearestUnique(y, a, f.bits);
  }

  lemma ZeroSays(negative: bool, radix: nat, exponential: bool)
    requires 2 <= radix <= 36
    ensures SaysNear(SignText(negative) + Layout(DigitString(0, radix, 1), radix, 1, exponential), radix, negative, 0.0, 0)
  {
    hide Pow, Denotes, Short, Nearest, Layout, DigitString, AtodMaxDigits, DtoaMaxDigits;
    PowOne(radix);
    MaxDigitsFit(radix);
    LayoutDenotes(negative, 0, 1, radix, 1, exponential);
    RPowPositive(-1075);
    NearestUnderflow(0.0);
  }

  lemma InfinityReads(negative: bool, radix: nat, flags: Flags)
    requires 2 <= radix <= 36 && !flags.intOnly
    ensures var s := SignText(negative) + "Infinity"; Read(s, radix, flags) == Infinity(negative, |s|)
  {
    var s := SignText(negative) + "Infinity";
    assert s[|SignText(negative)|..] == "Infinity";
  }

  /** "NaN" is not a number up to radix 23; from radix 24 on its first letter is a digit. */
  lemma NaNReads(radix: nat, flags: Flags)
    requires 2 <= radix <= 36
    ensures Read("NaN", radix, flags).Malformed? <==> radix <= 23
  {
    hide SkipOctal, ScanExponent;
    var s := "NaN";
    assert s[0..][0] == 'N' && "Infinity"[0] == 'I';
    assert Prefix(s, 0, radix, flags) == Begin(0, radix, flags.underscores);
    var st := Style(0, radix, flags.underscores, flags.intOnly);
    NaNDigits(st);
    NoMarkerAtStart(s, st);
  }

  lemma NaNDigits(st: Style)
    requires 2 <= st.radix <= 36 && st.start == 0
    ensures var r := ScanDigits("NaN", 0, st, -1, 0);
            if st.radix <= 23 then r == Scan([], -1, 0) else r.next == 3
  {
    hide ScanDigits, ScanDigit;
    var s := "NaN";
    ScanRound(s, 0, st, -1, 0);
    DigitRound(s, 0, st, -1, 0, 0);
    ScanRound(s, 1, st, -1, 1);
    DigitRound(s, 1, st, -1, 1, 1);
    ScanRound(s, 2, st, -1, 2);
    DigitRound(s, 2, st, -1, 2, 2);
    ScanRound(s, 3, st, -1, 3);
    DigitRound(s, 3, st, -1, 3, 3);
  }

  lemma NoMarkerAtStart(s: string, st: Style)
    requires st.start == 0 && |s| == 3
    ensures ScanExponent(s, 0, st) == NoExponent && ScanExponent(s, 3, st) == NoExponent
  {
  }

  /** js_atod reads back what js_dtoa prints in the free format: every float64, in every radix and
      exponent mode, with two exceptions that show in the result: -0 is printed without its sign
      unless asked for, and from radix 24 on "NaN" is a number. */
  lemma FreeRoundTrip(negative: bool, a: nat, radix: nat, n: nat, mode: ExponentMode, minusZero: bool, s: string,
                      flags: Flags, f: Float)
    requires 2 <= radix <= 36 && !flags.intOnly
    requires Printed(negative, a, radix, n, Free, mode, minusZero, s) && Converts(Read(s, radix, flags), f)
    ensures a > INFINITY ==> (f == NaN <==> radix <= 23)
    ensures 0 < a <= INFINITY ==> f == Float(negative, a)
    ensures a == 0 ==> f == Float(negative && minusZero, 0)
    ensures a <= INFINITY ==> Read(s, radix, flags).next == |s|
  {
    hide Read, PrintedFree, Layout, DigitString, Decode, SaysNear, UsesExponent, Nearest;
    if a > INFINITY {
      NaNReads(radix, flags);
      NaNConverts(radix, flags, f);
    } else if a == INFINITY {
      InfinityReads(negative, radix, flags);
    } else if a == 0 {
      var exponential := UsesExponent(Free, mode, radix, n, 1);
      ZeroSays(negative && minusZero, radix, exponential);
      ParsesTo(s, radix, flags, negative && minusZero, 0.0, 0, f);
    } else {
      var t :| s == SignText(negative) + t && PrintedPositive(a, radix, n, Free, mode, t);
      DecodeIsInverse(a);
      var (m, e) := Decode(a);
      FreeDenotes(negative, m, e, radix, mode, t);
      var y :| SaysNear(s, radix, negative, y, a);
      ParsesTo(s, radix, flags, negative, y, a, f);
    }
  }

  lemma NaNConverts(radix: nat, flags: Flags, f: Float)
    requires 2 <= radix <= 36 && Converts(Read("NaN", radix, flags), f)
    ensures Read("NaN", radix, flags).Malformed? <==> f == NaN
  {
  }
}
