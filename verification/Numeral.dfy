/** The numerals that js_atod accepts: a single left-to-right reading of the text, and the
    exact number it denotes. */
module Numeral {
  import opened Arith
  import opened Rounding
  import opened RadixLog
  import opened Digits

  datatype Flags = Flags(intOnly: bool, binOct: bool, legacyOctal: bool, underscores: bool)

  /** Characters, with the terminating NUL of a C string. */
  function At(s: string, p: nat): char {
    if p < |s| then s[p] else '\0'
  }

  // ----- sign and prefix -----

  /** Where the number starts, its radix, and whether '_' may separate digits. */
  datatype Start = BadPrefix(at: nat) | Infinite(next: nat) | Begin(p: nat, radix: nat, sep: bool)

  function AfterSign(s: string): (p: nat)
    ensures p <= 1
  {
    if At(s, 0) == '+' || At(s, 0) == '-' then 1 else 0
  }

  /** The position behind a run of octal digits. */
  function SkipOctal(s: string, p: nat): (q: nat)
    ensures p <= q
    decreases |s| - p
  {
    if '0' <= At(s, p) <= '7' then SkipOctal(s, p + 1) else p
  }

  function NeedDigit(s: string, p: nat, radix: nat, sep: bool): Start {
    if ToDigit(At(s, p)) >= radix then BadPrefix(p) else Begin(p, radix, sep)
  }

  predicate StartsWith(s: string, p: nat, t: string)
    requires p <= |s|
  {
    t <= s[p..]
  }

  /** The prefixes 0x, 0o, 0b and the legacy 0, and the word Infinity. */
  function Prefix(s: string, p: nat, radix: nat, flags: Flags): Start {
    var sep, decimal := flags.underscores, if radix == 0 then 10 else radix;
    if At(s, p) == '0' then
      var c := At(s, p + 1);
      if (c == 'x' || c == 'X') && (radix == 0 || radix == 16) then NeedDigit(s, p + 2, 16, sep)
      else if (c == 'o' || c == 'O') && radix == 0 && flags.binOct then NeedDigit(s, p + 2, 8, sep)
      else if (c == 'b' || c == 'B') && radix == 0 && flags.binOct then NeedDigit(s, p + 2, 2, sep)
      else if '0' <= c <= '9' && radix == 0 && flags.legacyOctal then
        var stop := At(s, SkipOctal(s, p + 1));
        if stop == '8' || stop == '9' then Begin(p, decimal, false) else NeedDigit(s, p + 1, 8, false)
      else Begin(p, decimal, sep)
    else if !flags.intOnly && p <= |s| && StartsWith(s, p, "Infinity") then Infinite(p + 8)
    else Begin(p, decimal, sep)
  }

  // ----- digits -----

  /** What is fixed while the digits are read. */
  datatype Style = Style(start: nat, radix: nat, sep: bool, intOnly: bool)

  /** The digits read, how many stand before the dot (-1 without a dot), and the next position. */
  datatype Scan = Scan(digits: seq<nat>, dot: int, next: nat)

  predicate DotAt(s: string, p: nat, st: Style) {
    At(s, p) == '.' && (p > st.start || ToDigit(At(s, p + 1)) < st.radix) && !st.intOnly
  }

  predicate SeparatorAt(s: string, p: nat, st: Style) {
    st.sep && At(s, p) == '_' && p > st.start && ToDigit(At(s, p + 1)) < st.radix
  }

  /** Reads digits with at most one dot; count digits have been read before. */
  function ScanDigits(s: string, p: nat, st: Style, dot: int, count: nat): (r: Scan)
    requires st.radix <= 36
    ensures p <= r.next && forall i :: 0 <= i < |r.digits| ==> r.digits[i] < st.radix
    ensures |r.digits| <= r.next - p && (|r.digits| > 0 ==> p + |r.digits| <= |s|)
    decreases |s| + 1 - p, 1
  {
    if DotAt(s, p, st) then
      if dot >= 0 then Scan([], dot, p) else ScanDigit(s, p + 1, st, count, count)
    else ScanDigit(s, p, st, dot, count)
  }

  /** The same behind a dot. */
  function ScanDigit(s: string, p: nat, st: Style, dot: int, count: nat): (r: Scan)
    requires st.radix <= 36
    ensures p <= r.next && forall i :: 0 <= i < |r.digits| ==> r.digits[i] < st.radix
    ensures |r.digits| <= r.next - p && (|r.digits| > 0 ==> p + |r.digits| <= |s|)
    decreases |s| + 1 - p, 0
  {
    var q := if SeparatorAt(s, p, st) then p + 1 else p;
    var c := ToDigit(At(s, q));
    if c >= st.radix then Scan([], dot, q)
    else
      var r := ScanDigits(s, q + 1, st, dot, count + 1);
      Scan([c] + r.digits, r.dot, r.next)
  }

  // ----- exponent -----

  datatype Exponent = NoExponent | BadExponent(at: nat) | Exponent(negative: bool, binary: bool, digits: seq<nat>, next: nat)

  predicate IsBinaryMarker(c: char) {
    c == 'p' || c == 'P'
  }

  /** e for radix 10; otherwise @ or, up to radix 16, p for a power of two. */
  predicate MarkerAt(s: string, p: nat, st: Style) {
    var c := At(s, p);
    && !st.intOnly && p > st.start
    && (if st.radix == 10 then c == 'e' || c == 'E'
        else c == '@' || (1 <= RadixBits(st.radix) <= 4 && IsBinaryMarker(c)))
  }

  /** A run of decimal digits and the position behind it. */
  function ScanDecimal(s: string, p: nat, sep: bool): (r: (seq<nat>, nat))
    ensures p <= r.1
    decreases |s| - p
  {
    var q := if sep && At(s, p) == '_' && ToDigit(At(s, p + 1)) < 10 then p + 1 else p;
    var c := ToDigit(At(s, q));
    if c >= 10 then ([], q)
    else
      var r := ScanDecimal(s, q + 1, sep);
      ([c] + r.0, r.1)
  }

  function ScanExponent(s: string, p: nat, st: Style): Exponent {
    if !MarkerAt(s, p, st) then NoExponent
    else
      var signed := At(s, p + 1) == '+' || At(s, p + 1) == '-';
      var q := if signed then p + 2 else p + 1;
      if ToDigit(At(s, q)) >= 10 then BadExponent(q)
      else
        var r := ScanDecimal(s, q + 1, st.sep);
        Exponent(At(s, p + 1) == '-', IsBinaryMarker(At(s, p)), [ToDigit(At(s, q))] + r.0, r.1)
  }

  // ----- numerals -----

  /** A numeral: digits, how many of them are behind the dot, and the exponent, which counts
      powers of two when `binary` and powers of the radix otherwise. */
  datatype Numeral =
    | Malformed(next: nat)
    | Infinity(negative: bool, next: nat)
    | Number(negative: bool, radix: nat, digits: seq<nat>, fraction: nat, exponent: int, binary: bool, next: nat)

  ghost function ExponentValue(e: Exponent): int
    requires e.Exponent?
  {
    var n: int := DigitsValue(e.digits, 10);
    if e.negative then -n else n
  }

  /** The number of digits behind the dot. */
  function FractionDigits(r: Scan): int {
    if r.dot < 0 then 0 else |r.digits| - r.dot
  }

  lemma {:induction false} FractionNonNegative(s: string, p: nat, st: Style, dot: int, count: nat)
    requires st.radix <= 36 && dot <= count
    ensures var r := ScanDigits(s, p, st, dot, count);
            r.dot <= count + |r.digits| && (dot >= 0 ==> r.dot == dot) && (r.dot < 0 ==> dot < 0)
    decreases |s| + 1 - p, 1
  {
    if DotAt(s, p, st) {
      if dot < 0 {
        FractionBehindDot(s, p + 1, st, count, count);
      }
    } else {
      FractionBehindDot(s, p, st, dot, count);
    }
  }

  lemma {:induction false} FractionBehindDot(s: string, p: nat, st: Style, dot: int, count: nat)
    requires st.radix <= 36 && dot <= count
    ensures var r := ScanDigit(s, p, st, dot, count);
            r.dot <= count + |r.digits| && (dot >= 0 ==> r.dot == dot) && (r.dot < 0 ==> dot < 0)
    decreases |s| + 1 - p, 0
  {
    var q := if SeparatorAt(s, p, st) then p + 1 else p;
    if ToDigit(At(s, q)) < st.radix {
      FractionNonNegative(s, q + 1, st, dot, count + 1);
    }
  }

  ghost function ReadNumber(s: string, p: nat, st: Style, negative: bool): Numeral
    requires 2 <= st.radix <= 36
  {
    var r := ScanDigits(s, p, st, -1, 0);
    FractionNonNegative(s, p, st, -1, 0);
    var e := ScanExponent(s, r.next, st);
    match e
    case BadExponent(at) => Malformed(at)
    case NoExponent =>
      if r.next == st.start then Malformed(r.next)
      else Number(negative, st.radix, r.digits, FractionDigits(r), 0, false, r.next)
    case Exponent(_, binary, _, next) =>
      Number(negative, st.radix, r.digits, FractionDigits(r), ExponentValue(e), binary, next)
  }

  /** The numeral at the start of a text. */
  ghost function Read(s: string, radix: nat, flags: Flags): Numeral
    requires radix == 0 || 2 <= radix <= 36
  {
    var negative, start := At(s, 0) == '-', AfterSign(s);
    match Prefix(s, start, radix, flags)
    case BadPrefix(at) => Malformed(at)
    case Infinite(next) => Infinity(negative, next)
    case Begin(p, r, sep) => ReadNumber(s, p, Style(start, r, sep, flags.intOnly), negative)
  }

  // ----- their values -----

  function LeadingZeros(ds: seq<nat>): (n: nat)
    ensures n <= |ds|
  {
    if |ds| == 0 || ds[0] != 0 then 0 else 1 + LeadingZeros(ds[1..])
  }

  /** The number of digits that count: all of them in a power-of-two radix, otherwise those up
      to the significant digit number AtodMaxDigits. */
  function KeptDigits(radix: nat, ds: seq<nat>): (n: nat)
    ensures n <= |ds|
  {
    var n := LeadingZeros(ds) + AtodMaxDigits(radix);
    if RadixBits(radix) != 0 || n >= |ds| then |ds| else n
  }

  /** The digits as a number, those that do not count replaced by zeros. */
  ghost function Significand(radix: nat, ds: seq<nat>): nat {
    var k := KeptDigits(radix, ds);
    DigitsValue(ds[..k], radix) * Pow(radix, |ds| - k)
  }

  /** ds * radix^(exponent - fraction), or ds * radix^-fraction * 2^exponent. */
  ghost function Magnitude(sig: nat, radix: nat, fraction: nat, exponent: int, binary: bool): real
    requires radix > 0
  {
    var f: int := fraction;
    if binary then Scale(Scale(sig as real, radix, -f), 2, exponent)
    else Scale(sig as real, radix, exponent - fraction)
  }
}
