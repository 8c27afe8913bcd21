/** What js_atod reads of any text, as a grammar on texts: sign, prefix, digits with separators, a dot, more digits and
    an exponent, up to the first character that cannot go on. The grammar describes exactly the accepted texts. */
module Reading {
  import opened Digits
  import opened RadixLog
  import opened Numeral
  import opened AtodDigits
  import opened Atod
  import opened RoundTrip

  // ----- the grammar -----

  /** A digit, or a separator before a digit. */
  predicate GroupedAt(t: string, i: nat, radix: nat, sep: bool)
    requires i < |t|
  {
    ToDigit(t[i]) < radix || (sep && t[i] == '_' && i + 1 < |t| && ToDigit(t[i + 1]) < radix)
  }

  /** Digits of the radix, each of which may follow a single separator. */
  ghost predicate Grouped(t: string, radix: nat, sep: bool) {
    forall i: nat :: i < |t| ==> GroupedAt(t, i, radix, sep)
  }

  /** The text without separators. */
  function Bare(t: string): string {
    if |t| == 0 then "" else if t[0] == '_' then Bare(t[1..]) else [t[0]] + Bare(t[1..])
  }

  datatype Power = NoPower | Power(mark: char, sign: string, digits: string)

  /** The parts of a number's text. */
  datatype Literal = Literal(sign: string, prefix: string, whole: string, dot: bool, fraction: string, power: Power)

  function PowerText(w: Power): string {
    match w
    case NoPower => ""
    case Power(mark, sign, digits) => [mark] + sign + digits
  }

  function Body(l: Literal): string {
    l.prefix + (l.whole + ((if l.dot then "." else "") + (l.fraction + PowerText(l.power))))
  }

  function TextOfLiteral(l: Literal): string {
    l.sign + Body(l)
  }

  predicate IsMark(c: char, radix: nat) {
    if radix == 10 then c == 'e' || c == 'E'
    else c == '@' || ((radix == 2 || radix == 4 || radix == 8 || radix == 16) && (c == 'p' || c == 'P'))
  }

  /** The number starts like an old octal one: zero and another decimal digit. */
  predicate OldOctal(whole: string, radix0: nat, flags: Flags) {
    radix0 == 0 && flags.legacyOctal && |whole| >= 2 && whole[0] == '0' && '0' <= whole[1] <= '9'
  }

  /** The prefixes of the radices 16, 8 and 2. */
  predicate LetterRule(prefix: string, radix0: nat, flags: Flags, radix: nat) {
    || ((prefix == "0x" || prefix == "0X") && (radix0 == 0 || radix0 == 16) && radix == 16)
    || ((prefix == "0o" || prefix == "0O") && radix0 == 0 && flags.binOct && radix == 8)
    || ((prefix == "0b" || prefix == "0B") && radix0 == 0 && flags.binOct && radix == 2)
  }

  /** The prefix fixes the radix and whether there may be separators; an old octal number with an 8 or a 9 in it is
      decimal. */
  ghost predicate PrefixRule(l: Literal, radix0: nat, flags: Flags, radix: nat, sep: bool) {
    match l.prefix
    case "" =>
      && radix == (if radix0 == 0 then 10 else radix0)
      && if OldOctal(l.whole, radix0, flags) then !sep && exists i :: 0 <= i < |l.whole| && (l.whole[i] == '8' || l.whole[i] == '9')
         else sep == flags.underscores
    case "0" => radix0 == 0 && flags.legacyOctal && radix == 8 && !sep
    case _ => sep == flags.underscores && LetterRule(l.prefix, radix0, flags, radix)
  }

  /** At least one digit, the first one before any separator; behind a prefix it comes before the dot. */
  ghost predicate DigitsRule(l: Literal, flags: Flags, radix: nat, sep: bool) {
    && Grouped(l.whole, radix, sep) && Grouped(l.fraction, radix, sep)
    && (l.whole != "" ==> l.whole[0] != '_')
    && (l.whole == "" ==> l.prefix == "" && l.dot && l.fraction != "" && l.fraction[0] != '_')
    && (!l.dot ==> l.fraction == "") && (flags.intOnly ==> !l.dot)
  }

  ghost predicate PowerRule(w: Power, flags: Flags, radix: nat, sep: bool) {
    w.Power? ==>
      && !flags.intOnly && IsMark(w.mark, radix) && (w.sign == "" || w.sign == "+" || w.sign == "-")
      && w.digits != "" && w.digits[0] != '_' && Grouped(w.digits, 10, sep)
  }

  /** The rest of the text cannot go on with the number. */
  predicate TailRule(l: Literal, flags: Flags, radix: nat, sep: bool, tail: string) {
    var c, digits := At(tail, 0), if l.power.Power? then 10 else radix;
    && ToDigit(c) >= digits && !(sep && c == '_' && ToDigit(At(tail, 1)) < digits)
    && (l.power.NoPower? ==> (c == '.' ==> l.dot || flags.intOnly) && (flags.intOnly || !IsMark(c, radix)))
  }

  /** What follows a lone zero does not make it a prefix, and what follows an old octal number is no decimal digit. */
  predicate ZeroRule(l: Literal, radix0: nat, flags: Flags, tail: string) {
    var c := At(tail, 0);
    !l.dot && l.power.NoPower? ==>
      && (l.prefix == "" && l.whole == "0" ==>
            && ((radix0 == 0 || radix0 == 16) ==> c != 'x' && c != 'X')
            && (radix0 == 0 && flags.binOct ==> c != 'o' && c != 'O' && c != 'b' && c != 'B'))
      && (l.prefix == "0" ==> c != '8' && c != '9')
  }

  /** l is what is read of l's text followed by the tail. */
  ghost predicate Fits(l: Literal, radix0: nat, flags: Flags, radix: nat, sep: bool, tail: string) {
    && (l.sign == "" || l.sign == "+" || l.sign == "-")
    && PrefixRule(l, radix0, flags, radix, sep) && DigitsRule(l, flags, radix, sep) && PowerRule(l.power, flags, radix, sep)
    && TailRule(l, flags, radix, sep, tail) && ZeroRule(l, radix0, flags, tail)
    && (flags.intOnly || !("Infinity" <= Body(l) + tail))
  }

  ghost function PowerValue(w: Power): int {
    match w
    case NoPower => 0
    case Power(_, sign, digits) =>
      var n: int := DigitsValue(DigitsOf(Bare(digits)), 10);
      if sign == "-" then -n else n
  }

  /** What it means. */
  ghost function ValueOfLiteral(l: Literal, radix: nat): Numeral {
    Number(l.sign == "-", radix, DigitsOf(Bare(l.whole)) + DigitsOf(Bare(l.fraction)), |Bare(l.fraction)|, PowerValue(l.power),
           l.power.Power? && (l.power.mark == 'p' || l.power.mark == 'P'), |TextOfLiteral(l)|)
  }

  // ----- runs of digits -----

  lemma GroupedTail(t: string, radix: nat, sep: bool, k: nat)
    requires Grouped(t, radix, sep) && k <= |t|
    ensures Grouped(t[k..], radix, sep)
  {
    forall i: nat | i < |t[k..]|
      ensures GroupedAt(t[k..], i, radix, sep)
    {
      assert GroupedAt(t, k + i, radix, sep);
    }
  }

  /** Where the first digit of a run is. */
  function Lead(t: string): nat {
    if |t| > 0 && t[0] == '_' then 1 else 0
  }

  /** The first digit of a run, behind a separator or not. */
  lemma GroupedHead(t: string, radix: nat, sep: bool)
    requires Grouped(t, radix, sep) && |t| > 0 && radix <= 36
    ensures var k := Lead(t);
            && k < |t| && ToDigit(t[k]) < radix && t[k] != '_' && Grouped(t[k + 1..], radix, sep) && (k == 1 ==> sep)
            && Bare(t) == [t[k]] + Bare(t[k + 1..])
            && DigitsOf(Bare(t)) == [ToDigit(t[k])] + DigitsOf(Bare(t[k + 1..]))
  {
    hide Grouped, Bare, DigitsOf;
    GroupedFirst(t, radix, sep);
    GroupedTail(t, radix, sep, Lead(t) + 1);
    BareHead(t);
    DigitsOfAppend([t[Lead(t)]], Bare(t[Lead(t) + 1..]));
    OneDigitOf(t[Lead(t)]);
  }

  lemma GroupedFirst(t: string, radix: nat, sep: bool)
    requires Grouped(t, radix, sep) && |t| > 0 && radix <= 36
    ensures Lead(t) < |t| && ToDigit(t[Lead(t)]) < radix && t[Lead(t)] != '_' && (Lead(t) == 1 ==> sep)
  {
    assert GroupedAt(t, 0, radix, sep);
  }

  lemma BareHead(t: string)
    requires Lead(t) < |t| && t[Lead(t)] != '_'
    ensures Bare(t) == [t[Lead(t)]] + Bare(t[Lead(t) + 1..])
  {
    hide Bare;
    BareStep(t);
    if Lead(t) == 1 {
      BareStep(t[1..]);
      assert t[1..][1..] == t[2..];
    }
  }

  lemma BareStep(t: string)
    requires |t| > 0
    ensures Bare(t) == if t[0] == '_' then Bare(t[1..]) else [t[0]] + Bare(t[1..])
  {
  }

  lemma OneDigitOf(c: char)
    ensures DigitsOf([c]) == [ToDigit(c)]
  {
  }

  lemma StandsFrom(s: string, p: nat, t: string, k: nat)
    requires Stands(s, p, t) && k <= |t|
    ensures Stands(s, p + k, t[k..])
  {
    assert s[p + k..p + |t|] == s[p..p + |t|][k..];
  }

  lemma GroupedStep(s: string, p: nat, st: Style, dot: int, count: nat, t: string)
    requires 2 <= st.radix <= 36 && Stands(s, p, t) && Grouped(t, st.radix, st.sep) && |t| > 0
    requires p >= st.start && (t[0] == '_' ==> p > st.start)
    ensures var k := Lead(t); var r := ScanDigits(s, p + k + 1, st, dot, count + 1);
            && k < |t| && Stands(s, p + k + 1, t[k + 1..])
            && ScanDigits(s, p, st, dot, count) == Scan([ToDigit(t[k])] + r.digits, r.dot, r.next)
  {
    hide ScanDigits, ScanDigit, Stands, Grouped;
    var k := Lead(t);
    GroupedFirst(t, st.radix, st.sep);
    StandsAt(s, p, t, 0);
    StandsAt(s, p, t, k);
    StandsFrom(s, p, t, k + 1);
    ScanRound(s, p, st, dot, count);
    DigitRound(s, p, st, dot, count, p + k);
  }

  /** A run is read digit by digit. */
  lemma {:induction false} GroupedRun(s: string, p: nat, st: Style, dot: int, count: nat, t: string)
    requires 2 <= st.radix <= 36 && Stands(s, p, t) && Grouped(t, st.radix, st.sep)
    requires p >= st.start && (|t| > 0 && t[0] == '_' ==> p > st.start)
    ensures var r := ScanDigits(s, p + |t|, st, dot, count + |Bare(t)|);
            ScanDigits(s, p, st, dot, count) == Scan(DigitsOf(Bare(t)) + r.digits, r.dot, r.next)
    decreases |t|
  {
    hide ScanDigits, ScanDigit, Stands, DigitsOf, Grouped, Bare, Lead;
    var r := ScanDigits(s, p + |t|, st, dot, count + |Bare(t)|);
    if |t| == 0 {
      BareNothing();
      NoDigitsOf("");
      PrependDigit(0, [], [0], r.digits);
    } else {
      var k := Lead(t);
      GroupedHead(t, st.radix, st.sep);
      GroupedStep(s, p, st, dot, count, t);
      GroupedRun(s, p + k + 1, st, dot, count + 1, t[k + 1..]);
      PrependDigit(ToDigit(t[k]), DigitsOf(Bare(t[k + 1..])), DigitsOf(Bare(t)), r.digits);
    }
  }

  lemma BareNothing()
    ensures Bare("") == ""
  {
  }

  /** The digits stop at p. */
  predicate Stops(s: string, p: nat, st: Style, dot: int) {
    && ToDigit(At(s, p)) >= st.radix && (At(s, p) == '.' ==> dot >= 0 || st.intOnly)
    && !(st.sep && At(s, p) == '_' && ToDigit(At(s, p + 1)) < st.radix)
  }

  lemma StopsHere(s: string, p: nat, st: Style, dot: int, count: nat)
    requires 2 <= st.radix <= 36 && Stops(s, p, st, dot)
    ensures ScanDigits(s, p, st, dot, count) == Scan([], dot, p)
  {
  }

  /** Behind the dot, another dot ends the number. */
  lemma BehindDot(s: string, p: nat, st: Style, dot: nat, count: nat)
    requires 2 <= st.radix <= 36
    ensures ScanDigit(s, p, st, dot, count) == ScanDigits(s, p, st, dot, count)
  {
  }

  /** Digits alone. */
  lemma ScanWhole(s: string, p: nat, st: Style, a: string)
    requires 2 <= st.radix <= 36 && p >= st.start && Grouped(a, st.radix, st.sep) && Stands(s, p, a)
    requires a != "" ==> a[0] != '_'
    requires Stops(s, p + |a|, st, -1)
    ensures ScanDigits(s, p, st, -1, 0) == Scan(DigitsOf(Bare(a)), -1, p + |a|)
  {
    hide ScanDigits, ScanDigit, Stands, DigitsOf, Grouped, Bare, Stops;
    GroupedRun(s, p, st, -1, 0, a);
    StopsHere(s, p + |a|, st, -1, |Bare(a)|);
    NothingBehind(DigitsOf(Bare(a)));
  }

  /** Digits, a dot and more digits. */
  lemma ScanDotted(s: string, p: nat, st: Style, a: string, b: string)
    requires 2 <= st.radix <= 36 && p >= st.start && Grouped(a, st.radix, st.sep) && Grouped(b, st.radix, st.sep)
    requires (a != "" ==> a[0] != '_') && DotAt(s, p + |a|, st) && (b != "" && b[0] == '_' ==> p + |a| + 1 > st.start)
    requires Stands(s, p, a) && Stands(s, p + |a| + 1, b) && Stops(s, p + |a| + 1 + |b|, st, 0)
    ensures ScanDigits(s, p, st, -1, 0) == Scan(DigitsOf(Bare(a)) + DigitsOf(Bare(b)), |Bare(a)|, p + |a| + 1 + |b|)
  {
    hide ScanDigits, ScanDigit, Stands, DigitsOf, Grouped, Bare, Stops, DotAt;
    var q, n := p + |a|, |Bare(a)|;
    GroupedRun(s, p, st, -1, 0, a);
    ScanRound(s, q, st, -1, n);
    BehindDot(s, q + 1, st, n, n);
    GroupedRun(s, q + 1, st, n, n, b);
    StillStops(s, q + 1 + |b|, st, 0, n);
    StopsHere(s, q + 1 + |b|, st, n, n + |Bare(b)|);
    NothingBehind(DigitsOf(Bare(b)));
  }

  /** Digits, possibly a dot and more digits. */
  lemma ScanLiteral(s: string, p: nat, st: Style, a: string, dot: bool, b: string)
    requires 2 <= st.radix <= 36 && p >= st.start && Grouped(a, st.radix, st.sep) && Grouped(b, st.radix, st.sep)
    requires (a != "" ==> a[0] != '_') && (!dot ==> b == "") && (dot ==> !st.intOnly)
    requires a == "" && p == st.start ==> dot && b != "" && b[0] != '_'
    requires Stands(s, p, a + ((if dot then "." else "") + b))
    requires var q := p + |a| + (if dot then 1 else 0) + |b|; Stops(s, q, st, if dot then 0 else -1)
    ensures var r := ScanDigits(s, p, st, -1, 0);
            && r.digits == DigitsOf(Bare(a)) + DigitsOf(Bare(b)) && FractionDigits(r) == |Bare(b)|
            && r.next == p + |a| + (if dot then 1 else 0) + |b|
  {
    hide ScanDigits, ScanDigit, Stands, DigitsOf, Grouped, Bare, Stops, DotAt;
    LiteralParts(s, p, a, dot, b);
    if dot {
      DotHere(s, p, st, a, b);
      ScanDotted(s, p, st, a, b);
    } else {
      ScanWhole(s, p, st, a);
      BareNothing();
      NoDigitsOf("");
      NothingBehind(DigitsOf(Bare(a)));
    }
  }

  lemma LiteralParts(s: string, p: nat, a: string, dot: bool, b: string)
    requires Stands(s, p, a + ((if dot then "." else "") + b))
    ensures Stands(s, p, a)
    ensures dot ==> At(s, p + |a|) == '.' && Stands(s, p + |a| + 1, b)
  {
    hide Stands;
    StandsSplit(s, p, a, (if dot then "." else "") + b);
    if dot {
      StandsSplit(s, p + |a|, ".", b);
      StandsAt(s, p + |a|, ".", 0);
    }
  }

  lemma StillStops(s: string, p: nat, st: Style, dot: nat, dot': nat)
    requires Stops(s, p, st, dot)
    ensures Stops(s, p, st, dot')
  {
  }

  lemma DotHere(s: string, p: nat, st: Style, a: string, b: string)
    requires p >= st.start && !st.intOnly && At(s, p + |a|) == '.' && Stands(s, p + |a| + 1, b)
    requires Grouped(b, st.radix, st.sep) && (a == "" && p == st.start ==> b != "" && b[0] != '_')
    ensures DotAt(s, p + |a|, st)
  {
    if a == "" && p == st.start {
      StandsAt(s, p + 1, b, 0);
      assert GroupedAt(b, 0, st.radix, st.sep);
    }
  }

  // ----- the exponent -----

  lemma {:induction false} GroupedDecimal(s: string, p: nat, sep: bool, t: string)
    requires Stands(s, p, t) && Grouped(t, 10, sep)
    requires ToDigit(At(s, p + |t|)) >= 10 && !(sep && At(s, p + |t|) == '_' && ToDigit(At(s, p + |t| + 1)) < 10)
    ensures ScanDecimal(s, p, sep) == (DigitsOf(Bare(t)), p + |t|)
    decreases |t|
  {
    hide ScanDecimal, Stands, DigitsOf, Grouped, Bare;
    if |t| == 0 {
      BareNothing();
      NoDigitsOf("");
      DecimalRound(s, p, sep, p);
    } else {
      var k := Lead(t);
      GroupedHead(t, 10, sep);
      StandsAt(s, p, t, 0);
      StandsAt(s, p, t, k);
      StandsFrom(s, p, t, k + 1);
      DecimalRound(s, p, sep, p + k);
      GroupedDecimal(s, p + k + 1, sep, t[k + 1..]);
    }
  }

  lemma MarkerIsMark(s: string, p: nat, st: Style)
    requires 2 <= st.radix <= 36
    ensures MarkerAt(s, p, st) <==> !st.intOnly && p > st.start && IsMark(At(s, p), st.radix)
  {
  }

  lemma ScanPower(s: string, p: nat, st: Style, w: Power, flags: Flags)
    requires 2 <= st.radix <= 36 && p > st.start && st.intOnly == flags.intOnly && PowerRule(w, flags, st.radix, st.sep)
    requires Stands(s, p, PowerText(w))
    requires var c, q := At(s, p + |PowerText(w)|), p + |PowerText(w)|;
             if w.NoPower? then flags.intOnly || !IsMark(c, st.radix)
             else ToDigit(c) >= 10 && !(st.sep && c == '_' && ToDigit(At(s, q + 1)) < 10)
    ensures var e := ScanExponent(s, p, st);
            if w.NoPower? then e == NoExponent
            else e.Exponent? && ExponentValue(e) == PowerValue(w) && e.next == p + |PowerText(w)|
                 && (e.binary <==> w.mark == 'p' || w.mark == 'P')
  {
    hide ScanDecimal, Stands, DigitsOf, Grouped, Bare, DigitsValue, IsMark, MarkerAt;
    MarkerIsMark(s, p, st);
    if w.Power? {
      PowerParts(s, p, w);
      FirstDigit(s, p + 1 + |w.sign|, w.digits, st.sep);
      ScanSigned(s, p, st, w.sign == "-", w.sign != "", w.digits);
    }
  }

  lemma PowerParts(s: string, p: nat, w: Power)
    requires w.Power? && Stands(s, p, PowerText(w)) && (w.sign == "" || w.sign == "+" || w.sign == "-")
    ensures At(s, p) == w.mark && (w.sign != "" ==> At(s, p + 1) == w.sign[0])
    ensures Stands(s, p + 1 + |w.sign|, w.digits)
  {
    hide Stands;
    StandsSplit(s, p, [w.mark] + w.sign, w.digits);
    StandsSplit(s, p, [w.mark], w.sign);
    StandsAt(s, p, [w.mark], 0);
    if w.sign != "" {
      StandsAt(s, p + 1, w.sign, 0);
    }
  }

  lemma FirstDigit(s: string, p: nat, t: string, sep: bool)
    requires Stands(s, p, t) && t != "" && t[0] != '_' && Grouped(t, 10, sep)
    ensures ToDigit(At(s, p)) < 10 && At(s, p) == t[0] && Stands(s, p + 1, t[1..]) && Grouped(t[1..], 10, sep)
    ensures DigitsOf(Bare(t)) == [ToDigit(t[0])] + DigitsOf(Bare(t[1..]))
  {
    hide Stands, Grouped, Bare, DigitsOf;
    GroupedHead(t, 10, sep);
    StandsAt(s, p, t, 0);
    StandsFrom(s, p, t, 1);
  }

  lemma ScanSigned(s: string, p: nat, st: Style, negative: bool, signed: bool, t: string)
    requires MarkerAt(s, p, st) && t != "" && (negative ==> signed)
    requires signed ==> At(s, p + 1) == if negative then '-' else '+'
    requires var q := if signed then p + 2 else p + 1;
             && ToDigit(At(s, q)) < 10 && At(s, q) == t[0] && Stands(s, q + 1, t[1..]) && Grouped(t[1..], 10, st.sep)
             && ToDigit(At(s, q + |t|)) >= 10 && !(st.sep && At(s, q + |t|) == '_' && ToDigit(At(s, q + |t| + 1)) < 10)
    ensures ScanExponent(s, p, st) == Exponent(negative, IsBinaryMarker(At(s, p)), [ToDigit(t[0])] + DigitsOf(Bare(t[1..])),
                                               (if signed then p + 2 else p + 1) + |t|)
  {
    hide ScanDecimal, Stands, DigitsOf, Grouped, Bare, MarkerAt;
    var q := if signed then p + 2 else p + 1;
    GroupedDecimal(s, q + 1, st.sep, t[1..]);
  }

  // ----- sign and prefix -----

  /** Where the parts of a literal's text stand. */
  lemma TextParts(l: Literal, tail: string)
    ensures var s := TextOfLiteral(l) + tail; var p := |l.sign|; var p1 := p + |l.prefix|;
            var q := p1 + |l.whole| + (if l.dot then 1 else 0) + |l.fraction|;
            && Stands(s, 0, l.sign) && Stands(s, p, l.prefix) && Stands(s, p1, l.whole + ((if l.dot then "." else "") + l.fraction))
            && Stands(s, q, PowerText(l.power)) && q + |PowerText(l.power)| == |TextOfLiteral(l)|
    ensures var s := TextOfLiteral(l) + tail;
            && |l.sign| <= |s| && s[|l.sign|..] == Body(l) + tail
            && At(s, |TextOfLiteral(l)|) == At(tail, 0) && At(s, |TextOfLiteral(l)| + 1) == At(tail, 1)
  {
    hide Stands, PowerText;
    var d, w := if l.dot then "." else "", PowerText(l.power);
    TextStands(l.sign, Body(l), tail);
    StandsSplit(TextOfLiteral(l) + tail, |l.sign|, l.prefix, l.whole + (d + (l.fraction + w)));
    NumberStands(TextOfLiteral(l) + tail, |l.sign| + |l.prefix|, l.whole, d, l.fraction, w);
    TextTail(l.sign, Body(l), tail);
  }

  lemma TextStands(sign: string, body: string, tail: string)
    ensures var s := (sign + body) + tail; Stands(s, 0, sign) && Stands(s, |sign|, body)
  {
    hide Stands;
    var s := (sign + body) + tail;
    StandsWhole(s);
    StandsSplit(s, 0, sign + body, tail);
    StandsSplit(s, 0, sign, body);
  }

  lemma NumberStands(s: string, p: nat, whole: string, dot: string, fraction: string, w: string)
    requires Stands(s, p, whole + (dot + (fraction + w)))
    ensures Stands(s, p, whole + (dot + fraction)) && Stands(s, p + |whole| + |dot| + |fraction|, w)
  {
    hide Stands;
    Associate(dot, fraction, w);
    Associate(whole, dot + fraction, w);
    StandsSplit(s, p, whole + (dot + fraction), w);
  }

  lemma TextTail(sign: string, body: string, tail: string)
    ensures var s := (sign + body) + tail;
            && s[|sign|..] == body + tail
            && At(s, |sign + body|) == At(tail, 0) && At(s, |sign + body| + 1) == At(tail, 1)
  {
  }

  /** The character behind the digits before the dot. */
  lemma BehindWhole(l: Literal, tail: string)
    ensures var c := At(TextOfLiteral(l) + tail, |l.sign| + |l.prefix| + |l.whole|);
            && (l.dot ==> c == '.')
            && (!l.dot && l.fraction == "" ==> c == if l.power.Power? then l.power.mark else At(tail, 0))
  {
    hide Stands, TextOfLiteral;
    var s, p1 := TextOfLiteral(l) + tail, |l.sign| + |l.prefix|;
    TextParts(l, tail);
    LiteralParts(s, p1, l.whole, l.dot, l.fraction);
    if !l.dot && l.fraction == "" && l.power.Power? {
      StandsAt(s, p1 + |l.whole|, PowerText(l.power), 0);
    }
  }

  lemma {:induction false} SkipRun(s: string, p: nat, t: string)
    requires Stands(s, p, t) && Grouped(t, 8, false) && !('0' <= At(s, p + |t|) <= '7')
    ensures SkipOctal(s, p) == p + |t|
    decreases |t|
  {
    hide Stands, Grouped;
    if |t| > 0 {
      GroupedHead(t, 8, false);
      StandsAt(s, p, t, 0);
      StandsFrom(s, p, t, 1);
      OctalChar(t[0]);
      SkipRun(s, p + 1, t[1..]);
    }
  }

  lemma OctalChar(c: char)
    ensures ToDigit(c) < 8 <==> '0' <= c <= '7'
    ensures ToDigit(c) < 10 <==> '0' <= c <= '9'
  {
  }

  /** A decimal run with an 8 or a 9 in it is not octal. */
  lemma {:induction false} SkipToHigh(s: string, p: nat, t: string, k: nat)
    requires Stands(s, p, t) && Grouped(t, 10, false) && k < |t| && (t[k] == '8' || t[k] == '9')
    ensures At(s, SkipOctal(s, p)) == '8' || At(s, SkipOctal(s, p)) == '9'
    decreases |t|
  {
    hide Stands, Grouped;
    GroupedHead(t, 10, false);
    StandsAt(s, p, t, 0);
    OctalChar(t[0]);
    if '0' <= t[0] <= '7' {
      StandsFrom(s, p, t, 1);
      SkipToHigh(s, p + 1, t[1..], k - 1);
    }
  }

  /** The first character of the number. */
  lemma FirstOfWhole(l: Literal, flags: Flags, radix: nat, sep: bool, tail: string)
    requires DigitsRule(l, flags, radix, sep)
    ensures var c := At(TextOfLiteral(l) + tail, |l.sign| + |l.prefix|);
            if l.whole == "" then c == '.' else c == l.whole[0] && ToDigit(c) < radix && c != '_'
    ensures |l.whole| >= 2 ==> At(TextOfLiteral(l) + tail, |l.sign| + |l.prefix| + 1) == l.whole[1]
    ensures |l.whole| >= 2 ==> ToDigit(l.whole[1]) < radix || (l.whole[1] == '_' && sep)
  {
    hide Stands, TextOfLiteral;
    var s, p1 := TextOfLiteral(l) + tail, |l.sign| + |l.prefix|;
    TextParts(l, tail);
    LiteralParts(s, p1, l.whole, l.dot, l.fraction);
    if l.whole != "" {
      StandsAt(s, p1, l.whole, 0);
      assert GroupedAt(l.whole, 0, radix, sep);
      if |l.whole| >= 2 {
        StandsAt(s, p1, l.whole, 1);
        assert GroupedAt(l.whole, 1, radix, sep);
      }
    }
  }

  lemma NoPrefixBegins(l: Literal, radix0: nat, flags: Flags, radix: nat, sep: bool, tail: string)
    requires (radix0 == 0 || 2 <= radix0 <= 36) && Fits(l, radix0, flags, radix, sep, tail) && l.prefix == ""
    ensures Prefix(TextOfLiteral(l) + tail, |l.sign|, radix0, flags) == Begin(|l.sign|, radix, sep)
  {
    hide Stands, TextOfLiteral, SkipOctal, Grouped, Body;
    var s, p := TextOfLiteral(l) + tail, |l.sign|;
    TextParts(l, tail);
    FirstOfWhole(l, flags, radix, sep, tail);
    if At(s, p) != '0' {
      assert StartsWith(s, p, "Infinity") <==> "Infinity" <= Body(l) + tail;
    } else if OldOctal(l.whole, radix0, flags) {
      OldDecimal(l, s, p);
    } else if |l.whole| == 1 {
      BehindWhole(l, tail);
      OctalChar(At(s, p + 1));
    } else {
      OctalChar(At(s, p + 1));
    }
  }

  lemma OldDecimal(l: Literal, s: string, p: nat)
    requires Stands(s, p, l.whole + ((if l.dot then "." else "") + l.fraction)) && Grouped(l.whole, 10, false)
    requires |l.whole| >= 2 && l.whole[0] == '0'
    requires exists i :: 0 <= i < |l.whole| && (l.whole[i] == '8' || l.whole[i] == '9')
    ensures At(s, SkipOctal(s, p + 1)) == '8' || At(s, SkipOctal(s, p + 1)) == '9'
  {
    hide Stands, SkipOctal, Grouped;
    var i :| 0 <= i < |l.whole| && (l.whole[i] == '8' || l.whole[i] == '9');
    LiteralParts(s, p, l.whole, l.dot, l.fraction);
    StandsFrom(s, p, l.whole, 1);
    GroupedTail(l.whole, 10, false, 1);
    SkipToHigh(s, p + 1, l.whole[1..], i - 1);
  }

  lemma OldOctalBegins(l: Literal, radix0: nat, flags: Flags, radix: nat, sep: bool, tail: string)
    requires (radix0 == 0 || 2 <= radix0 <= 36) && Fits(l, radix0, flags, radix, sep, tail) && l.prefix == "0"
    ensures Prefix(TextOfLiteral(l) + tail, |l.sign|, radix0, flags) == Begin(|l.sign| + 1, radix, sep)
  {
    hide Stands, TextOfLiteral, SkipOctal, Grouped, Body;
    var s, p := TextOfLiteral(l) + tail, |l.sign|;
    TextParts(l, tail);
    FirstOfWhole(l, flags, radix, sep, tail);
    StandsAt(s, p, l.prefix, 0);
    LiteralParts(s, p + 1, l.whole, l.dot, l.fraction);
    BehindWhole(l, tail);
    OctalChar(At(s, p + 1));
    OctalChar(At(s, p + 1 + |l.whole|));
    SkipRun(s, p + 1, l.whole);
  }

  lemma PrefixBegins(l: Literal, radix0: nat, flags: Flags, radix: nat, sep: bool, tail: string)
    requires (radix0 == 0 || 2 <= radix0 <= 36) && Fits(l, radix0, flags, radix, sep, tail)
    ensures Prefix(TextOfLiteral(l) + tail, |l.sign|, radix0, flags) == Begin(|l.sign| + |l.prefix|, radix, sep)
    ensures 2 <= radix <= 36
  {
    hide Stands, TextOfLiteral, SkipOctal, Grouped, Body;
    if l.prefix == "" {
      NoPrefixBegins(l, radix0, flags, radix, sep, tail);
    } else if l.prefix == "0" {
      OldOctalBegins(l, radix0, flags, radix, sep, tail);
    } else {
      LetterBegins(l, radix0, flags, radix, sep, tail);
    }
  }

  lemma LetterBegins(l: Literal, radix0: nat, flags: Flags, radix: nat, sep: bool, tail: string)
    requires (radix0 == 0 || 2 <= radix0 <= 36) && PrefixRule(l, radix0, flags, radix, sep) && DigitsRule(l, flags, radix, sep)
    requires l.prefix != "" && l.prefix != "0"
    ensures |l.prefix| == 2 && 2 <= radix <= 36
    ensures Prefix(TextOfLiteral(l) + tail, |l.sign|, radix0, flags) == Begin(|l.sign| + 2, radix, sep)
  {
    hide Stands, TextOfLiteral, Grouped, Prefix;
    var s, p := TextOfLiteral(l) + tail, |l.sign|;
    TextParts(l, tail);
    FirstOfWhole(l, flags, radix, sep, tail);
    StandsAt(s, p, l.prefix, 0);
    StandsAt(s, p, l.prefix, 1);
    LetterPrefix(s, p, radix0, flags, l.prefix[1], radix);
  }

  lemma LetterPrefix(s: string, p: nat, radix0: nat, flags: Flags, c: char, radix: nat)
    requires At(s, p) == '0' && At(s, p + 1) == c && ToDigit(At(s, p + 2)) < radix
    requires || ((c == 'x' || c == 'X') && (radix0 == 0 || radix0 == 16) && radix == 16)
             || ((c == 'o' || c == 'O') && radix0 == 0 && flags.binOct && radix == 8)
             || ((c == 'b' || c == 'B') && radix0 == 0 && flags.binOct && radix == 2)
    ensures Prefix(s, p, radix0, flags) == Begin(p + 2, radix, flags.underscores)
  {
    hide SkipOctal;
  }

  lemma SignRead(l: Literal, radix0: nat, flags: Flags, radix: nat, sep: bool, tail: string)
    requires (radix0 == 0 || 2 <= radix0 <= 36) && Fits(l, radix0, flags, radix, sep, tail)
    ensures var s := TextOfLiteral(l) + tail; AfterSign(s) == |l.sign| && (At(s, 0) == '-' <==> l.sign == "-")
  {
    hide Stands, TextOfLiteral, Grouped, Body;
    var s := TextOfLiteral(l) + tail;
    TextParts(l, tail);
    if l.sign != "" {
      StandsAt(s, 0, l.sign, 0);
    } else if l.prefix != "" {
      StandsAt(s, 0, l.prefix, 0);
    } else {
      FirstOfWhole(l, flags, radix, sep, tail);
    }
  }

  // ----- the whole text -----

  lemma ReadParts(s: string, radix0: nat, flags: Flags, p: nat, p1: nat, radix: nat, sep: bool)
    requires (radix0 == 0 || 2 <= radix0 <= 36) && 2 <= radix <= 36 && p == AfterSign(s)
    requires Prefix(s, p, radix0, flags) == Begin(p1, radix, sep)
    ensures var st := Style(p, radix, sep, flags.intOnly);
            var r := ScanDigits(s, p1, st, -1, 0);
            var e := ScanExponent(s, r.next, st);
            && (e.NoExponent? && r.next > p ==>
                  FractionDigits(r) >= 0 && Read(s, radix0, flags) == Number(At(s, 0) == '-', radix, r.digits, FractionDigits(r), 0, false, r.next))
            && (e.Exponent? ==>
                  FractionDigits(r) >= 0 && Read(s, radix0, flags) ==
                  Number(At(s, 0) == '-', radix, r.digits, FractionDigits(r), ExponentValue(e), e.binary, e.next))
  {
    hide Prefix, ScanDigits, ScanExponent, ExponentValue;
    FractionNonNegative(s, p1, Style(p, radix, sep, flags.intOnly), -1, 0);
  }

  /** Whatever the grammar describes is read, to its end and no further, with its meaning. */
  lemma ReadLiteral(l: Literal, radix0: nat, flags: Flags, radix: nat, sep: bool, tail: string)
    requires (radix0 == 0 || 2 <= radix0 <= 36) && Fits(l, radix0, flags, radix, sep, tail)
    ensures radix > 0 && Read(TextOfLiteral(l) + tail, radix0, flags) == ValueOfLiteral(l, radix)
  {
    hide Stands, TextOfLiteral, Grouped, Body, Prefix, ScanDigits, ScanExponent, Bare, DigitsOf, DigitsValue, ExponentValue,
         Read, PrefixRule, TailRule, ZeroRule, Stops, AfterSign;
    var s, p := TextOfLiteral(l) + tail, |l.sign|;
    var p1 := p + |l.prefix|;
    var q := p1 + |l.whole| + (if l.dot then 1 else 0) + |l.fraction|;
    var st := Style(p, radix, sep, flags.intOnly);
    SignRead(l, radix0, flags, radix, sep, tail);
    PrefixBegins(l, radix0, flags, radix, sep, tail);
    TextParts(l, tail);
    DigitsStop(l, flags, radix, sep, tail);
    TailPower(l, flags, radix, sep, tail);
    ReadParts(s, radix0, flags, p, p1, radix, sep);
    ScanLiteral(s, p1, st, l.whole, l.dot, l.fraction);
    ScanPower(s, q, st, l.power, flags);
  }

  lemma TailPower(l: Literal, flags: Flags, radix: nat, sep: bool, tail: string)
    requires TailRule(l, flags, radix, sep, tail)
    ensures var c := At(tail, 0);
            if l.power.NoPower? then flags.intOnly || !IsMark(c, radix)
            else ToDigit(c) >= 10 && !(sep && c == '_' && ToDigit(At(tail, 1)) < 10)
  {
  }

  lemma DigitsStop(l: Literal, flags: Flags, radix: nat, sep: bool, tail: string)
    requires 2 <= radix <= 36 && TailRule(l, flags, radix, sep, tail) && PowerRule(l.power, flags, radix, sep)
    ensures var s := TextOfLiteral(l) + tail;
            var q := |l.sign| + |l.prefix| + |l.whole| + (if l.dot then 1 else 0) + |l.fraction|;
            Stops(s, q, Style(|l.sign|, radix, sep, flags.intOnly), if l.dot then 0 else -1)
  {
    hide Stands, TextOfLiteral, Grouped;
    var s := TextOfLiteral(l) + tail;
    var q := |l.sign| + |l.prefix| + |l.whole| + (if l.dot then 1 else 0) + |l.fraction|;
    TextParts(l, tail);
    if l.power.Power? {
      StandsAt(s, q, PowerText(l.power), 0);
    }
  }

  lemma ReadInfinity(sign: string, radix0: nat, flags: Flags, tail: string)
    requires (radix0 == 0 || 2 <= radix0 <= 36) && !flags.intOnly && (sign == "" || sign == "+" || sign == "-")
    ensures Read(sign + "Infinity" + tail, radix0, flags) == Infinity(sign == "-", |sign| + 8)
  {
    hide SkipOctal;
    var s, p := sign + "Infinity" + tail, |sign|;
    assert s[p..] == "Infinity" + tail;
    assert At(s, p) == 'I' by {
      assert s[p] == s[p..][0];
    }
  }

  // ----- nothing else is accepted -----

  lemma GroupedMore(t: string, c: char, k: nat, radix: nat, sep: bool)
    requires Grouped(t, radix, sep) && ToDigit(c) < radix && k <= 1 && (k == 1 ==> sep)
    ensures Grouped((if k == 1 then "_" else "") + [c] + t, radix, sep)
  {
    var u := (if k == 1 then "_" else "") + [c] + t;
    forall i: nat | i < |u|
      ensures GroupedAt(u, i, radix, sep)
    {
      if i > k {
        assert GroupedAt(t, i - k - 1, radix, sep);
      }
    }
  }

  lemma NoGroups(radix: nat, sep: bool)
    ensures Grouped("", radix, sep)
  {
  }

  lemma SliceHead(s: string, p: nat, k: nat, q: nat)
    requires p + k < |s| && p + k + 1 <= q <= |s| && k <= 1 && (k == 1 ==> s[p] == '_')
    ensures s[p..q] == (if k == 1 then "_" else "") + [s[p + k]] + s[p + k + 1..q]
  {
  }

  /** The digits read behind the dot. */
  lemma {:induction false} RunBehind(s: string, p: nat, st: Style, dot: nat, count: nat)
    requires 2 <= st.radix <= 36 && st.start < p <= |s|
    ensures var r := ScanDigits(s, p, st, dot, count);
            p <= r.next <= |s| && Grouped(s[p..r.next], st.radix, st.sep) && Stops(s, r.next, st, 0)
    decreases |s| + 1 - p
  {
    hide ScanDigits, ScanDigit, Grouped;
    var r := ScanDigits(s, p, st, dot, count);
    var k := if SeparatorAt(s, p, st) then 1 else 0;
    BehindDot(s, p, st, dot, count);
    DigitRound(s, p, st, dot, count, p + k);
    if ToDigit(At(s, p + k)) < st.radix {
      RunBehind(s, p + k + 1, st, dot, count + 1);
      GroupedMore(s[p + k + 1..r.next], s[p + k], k, st.radix, st.sep);
      SliceHead(s, p, k, r.next);
    } else {
      NoGroups(st.radix, st.sep);
      assert s[p..p] == "";
    }
  }

  /** What ScanDigits reads from p on: digits, possibly a dot and more digits. */
  ghost predicate IsRun(s: string, p: nat, st: Style, q: nat, a: string, dot: bool, b: string) {
    && p <= q <= |s| && s[p..q] == a + ((if dot then "." else "") + b)
    && Grouped(a, st.radix, st.sep) && Grouped(b, st.radix, st.sep)
    && (!dot ==> b == "") && (dot ==> !st.intOnly)
    && (q > st.start ==> Stops(s, q, st, if dot then 0 else -1))
    && (p == st.start ==> (a != "" ==> a[0] != '_') && (a == "" && dot ==> b != "" && b[0] != '_'))
  }

  lemma {:induction false} RunParts(s: string, p: nat, st: Style, count: nat) returns (a: string, dot: bool, b: string)
    requires 2 <= st.radix <= 36 && st.start <= p <= |s|
    ensures IsRun(s, p, st, ScanDigits(s, p, st, -1, count).next, a, dot, b)
    decreases |s| + 1 - p
  {
    hide ScanDigits, ScanDigit, Grouped, DotAt, IsRun;
    var r := ScanDigits(s, p, st, -1, count);
    ScanRound(s, p, st, -1, count);
    if DotAt(s, p, st) {
      BehindDot(s, p + 1, st, count, count);
      RunBehind(s, p + 1, st, count, count);
      a, dot, b := "", true, s[p + 1..r.next];
      DotRun(s, p, st, r.next);
    } else {
      var k := if SeparatorAt(s, p, st) then 1 else 0;
      DigitRound(s, p, st, -1, count, p + k);
      if ToDigit(At(s, p + k)) < st.radix {
        var a';
        a', dot, b := RunParts(s, p + k + 1, st, count + 1);
        a := (if k == 1 then "_" else "") + [s[p + k]] + a';
        DigitRun(s, p, st, r.next, k, a', dot, b);
      } else {
        a, dot, b := "", false, "";
        EmptyRun(s, p, st);
      }
    }
  }

  lemma DotRun(s: string, p: nat, st: Style, q: nat)
    requires DotAt(s, p, st) && st.start <= p < q <= |s| && Grouped(s[p + 1..q], st.radix, st.sep) && Stops(s, q, st, 0)
    requires st.radix <= 36
    ensures IsRun(s, p, st, q, "", true, s[p + 1..q])
  {
    hide Grouped;
    NoGroups(st.radix, st.sep);
    assert s[p..q] == "." + s[p + 1..q];
  }

  lemma DigitRun(s: string, p: nat, st: Style, q: nat, k: nat, a: string, dot: bool, b: string)
    requires p + k + 1 <= |s| && IsRun(s, p + k + 1, st, q, a, dot, b) && k <= 1 && st.start <= p && st.radix <= 36
    requires ToDigit(s[p + k]) < st.radix && (k == 1 ==> SeparatorAt(s, p, st))
    ensures IsRun(s, p, st, q, (if k == 1 then "_" else "") + [s[p + k]] + a, dot, b)
  {
    hide Grouped;
    GroupedMore(a, s[p + k], k, st.radix, st.sep);
    SliceHead(s, p, k, q);
    var d := if dot then "." else "";
    assert (if k == 1 then "_" else "") + [s[p + k]] + (a + (d + b)) == (if k == 1 then "_" else "") + [s[p + k]] + a + (d + b);
  }

  lemma EmptyRun(s: string, p: nat, st: Style)
    requires p <= |s| && st.start <= p && !DotAt(s, p, st)
    requires ToDigit(At(s, p)) >= st.radix && !SeparatorAt(s, p, st)
    ensures IsRun(s, p, st, p, "", false, "")
  {
    NoGroups(st.radix, st.sep);
    assert s[p..p] == "";
  }

  lemma {:induction false} DecimalPart(s: string, p: nat, sep: bool)
    requires p <= |s|
    ensures var q := ScanDecimal(s, p, sep).1;
            && p <= q <= |s| && Grouped(s[p..q], 10, sep)
            && ToDigit(At(s, q)) >= 10 && !(sep && At(s, q) == '_' && ToDigit(At(s, q + 1)) < 10)
    decreases |s| - p
  {
    hide ScanDecimal, Grouped;
    var k := if sep && At(s, p) == '_' && ToDigit(At(s, p + 1)) < 10 then 1 else 0;
    DecimalRound(s, p, sep, p + k);
    if ToDigit(At(s, p + k)) < 10 {
      var q := ScanDecimal(s, p + k + 1, sep).1;
      DecimalPart(s, p + k + 1, sep);
      GroupedMore(s[p + k + 1..q], s[p + k], k, 10, sep);
      SliceHead(s, p, k, q);
    } else {
      NoGroups(10, sep);
      assert s[p..p] == "";
    }
  }

  /** What follows the digits is an exponent, or cannot be one. */
  ghost predicate IsPower(s: string, p: nat, st: Style, flags: Flags, w: Power) {
    && p + |PowerText(w)| <= |s| && s[p..p + |PowerText(w)|] == PowerText(w) && PowerRule(w, flags, st.radix, st.sep)
    && var q := p + |PowerText(w)|;
       if w.NoPower? then flags.intOnly || !IsMark(At(s, p), st.radix)
       else ToDigit(At(s, q)) >= 10 && !(st.sep && At(s, q) == '_' && ToDigit(At(s, q + 1)) < 10)
  }

  lemma PowerPart(s: string, p: nat, st: Style, flags: Flags) returns (w: Power)
    requires 2 <= st.radix <= 36 && st.start < p <= |s| && st.intOnly == flags.intOnly && !ScanExponent(s, p, st).BadExponent?
    ensures IsPower(s, p, st, flags, w)
  {
    hide Grouped, ScanDecimal, MarkerAt, IsMark, IsPower;
    MarkerIsMark(s, p, st);
    if MarkerAt(s, p, st) {
      InText(s, p, st);
      var signed := At(s, p + 1) == '+' || At(s, p + 1) == '-';
      var q := if signed then p + 2 else p + 1;
      var end := ScanDecimal(s, q + 1, st.sep).1;
      DigitInText(s, q);
      DecimalPart(s, q + 1, st.sep);
      w := Power(s[p], s[p + 1..q], s[q..end]);
      SignedPower(s, p, q, end, st, flags);
    } else {
      w := NoPower;
      NoPowerHere(s, p, st, flags);
    }
  }

  lemma NoPowerHere(s: string, p: nat, st: Style, flags: Flags)
    requires p <= |s| && (flags.intOnly || !IsMark(At(s, p), st.radix))
    ensures IsPower(s, p, st, flags, NoPower)
  {
    assert s[p..p] == "";
  }

  lemma SignedPower(s: string, p: nat, q: nat, end: nat, st: Style, flags: Flags)
    requires p < q < end <= |s| && !flags.intOnly && IsMark(s[p], st.radix)
    requires q == p + 1 || (q == p + 2 && (s[p + 1] == '+' || s[p + 1] == '-'))
    requires ToDigit(s[q]) < 10 && Grouped(s[q + 1..end], 10, st.sep)
    requires ToDigit(At(s, end)) >= 10 && !(st.sep && At(s, end) == '_' && ToDigit(At(s, end + 1)) < 10)
    ensures IsPower(s, p, st, flags, Power(s[p], s[p + 1..q], s[q..end]))
  {
    hide Grouped, IsMark;
    PowerDigits(s, q, end, st.sep);
    PowerSlices(s, p, q, end);
  }

  lemma PowerDigits(s: string, q: nat, end: nat, sep: bool)
    requires q < end <= |s| && ToDigit(s[q]) < 10 && Grouped(s[q + 1..end], 10, sep)
    ensures Grouped(s[q..end], 10, sep) && s[q..end][0] == s[q] != '_'
  {
    hide Grouped;
    GroupedMore(s[q + 1..end], s[q], 0, 10, sep);
    Cut(s, q, q + 1, end);
    OneChar(s, q);
    assert "" + [s[q]] == [s[q]];
  }

  lemma PowerSlices(s: string, p: nat, q: nat, end: nat)
    requires p < q < end <= |s| && p + 1 <= q <= p + 2
    ensures s[p..end] == [s[p]] + s[p + 1..q] + s[q..end]
    ensures s[p + 1..q] == if q == p + 1 then "" else [s[p + 1]]
  {
    Cut(s, p, q, end);
    Cut(s, p, p + 1, q);
    OneChar(s, p);
    if q == p + 2 {
      OneChar(s, p + 1);
    }
  }

  lemma OneChar(s: string, i: nat)
    requires i < |s|
    ensures s[i..i + 1] == [s[i]]
  {
  }

  lemma InText(s: string, p: nat, st: Style)
    requires 2 <= st.radix <= 36 && MarkerAt(s, p, st)
    ensures p < |s|
  {
  }

  lemma DigitInText(s: string, p: nat)
    requires ToDigit(At(s, p)) < 36
    ensures p < |s|
  {
  }

  /** What Prefix says about the characters it has passed. */
  ghost predicate IsPrefix(s: string, p: nat, p1: nat, radix0: nat, flags: Flags, radix: nat, sep: bool) {
    && p <= p1 <= |s| && p1 <= p + 2
    && (p1 == p ==> radix == if radix0 == 0 then 10 else radix0)
    && (p1 == p + 1 ==> radix0 == 0 && flags.legacyOctal && radix == 8 && !sep && s[p..p1] == "0" && ToDigit(At(s, p1)) < 8
                        && At(s, SkipOctal(s, p + 1)) != '8' && At(s, SkipOctal(s, p + 1)) != '9')
    && (p1 == p + 2 ==> sep == flags.underscores && ToDigit(At(s, p1)) < radix
                        && LetterRule(s[p..p1], radix0, flags, radix))
    && (p1 == p && At(s, p) == '0' ==>
          var c := At(s, p + 1);
          && ((radix0 == 0 || radix0 == 16) ==> c != 'x' && c != 'X')
          && (radix0 == 0 && flags.binOct ==> c != 'o' && c != 'O' && c != 'b' && c != 'B')
          && if '0' <= c <= '9' && radix0 == 0 && flags.legacyOctal
             then !sep && (At(s, SkipOctal(s, p + 1)) == '8' || At(s, SkipOctal(s, p + 1)) == '9')
             else sep == flags.underscores)
    && (p1 == p && At(s, p) != '0' ==> sep == flags.underscores)
    && (flags.intOnly || !("Infinity" <= s[p..]))
  }

  lemma PrefixPart(s: string, p: nat, radix0: nat, flags: Flags)
    requires (radix0 == 0 || 2 <= radix0 <= 36) && p <= |s| && Prefix(s, p, radix0, flags).Begin?
    ensures var b := Prefix(s, p, radix0, flags); IsPrefix(s, p, b.p, radix0, flags, b.radix, b.sep) && 2 <= b.radix <= 36
  {
    hide SkipOctal;
    var b := Prefix(s, p, radix0, flags);
    if At(s, p) == '0' {
      DigitInText(s, p);
      assert s[p..][0] == '0';
      if b.p > p {
        DigitInText(s, b.p);
        assert s[p..p + 1] == "0";
        assert b.p == p + 2 ==> s[p..b.p] == ['0', s[p + 1]];
      }
    }
  }

  /** The literal made of the parts. */
  ghost predicate Splits(s: string, l: Literal, tail: string, p: nat, p1: nat, q: nat, e: nat) {
    && p <= p1 <= q <= e <= |s| && s == TextOfLiteral(l) + tail
    && |l.sign| == p && |l.prefix| == p1 - p && s[p1..q] == l.whole + ((if l.dot then "." else "") + l.fraction)
    && s[p..] == Body(l) + tail && At(tail, 0) == At(s, e) && At(tail, 1) == At(s, e + 1)
  }

  lemma Cut(s: string, i: nat, j: nat, k: nat)
    requires i <= j <= k <= |s|
    ensures s[i..k] == s[i..j] + s[j..k]
  {
  }

  lemma Associate(a: string, b: string, c: string)
    ensures (a + b) + c == a + (b + c)
  {
  }

  lemma Assemble(s: string, p: nat, p1: nat, q: nat, a: string, dot: bool, b: string, w: Power) returns (l: Literal, tail: string)
    requires p <= p1 <= q <= |s| && s[p1..q] == a + ((if dot then "." else "") + b)
    requires q + |PowerText(w)| <= |s| && s[q..q + |PowerText(w)|] == PowerText(w)
    ensures l == Literal(s[..p], s[p..p1], a, dot, b, w) && Splits(s, l, tail, p, p1, q, q + |PowerText(w)|)
  {
    hide PowerText;
    var e, d := q + |PowerText(w)|, if dot then "." else "";
    l, tail := Literal(s[..p], s[p..p1], a, dot, b, w), s[e..];
    Cut(s, p1, q, e);
    Associate(a, d + b, PowerText(w));
    Associate(d, b, PowerText(w));
    Cut(s, p, p1, e);
    assert s[p..e] == Body(l);
    Cut(s, p, e, |s|);
    Cut(s, 0, p, |s|);
    Ends0(s, p, e);
    Associate(s[..p], Body(l), tail);
  }

  lemma Ends0(s: string, p: nat, e: nat)
    requires p <= e <= |s|
    ensures s[p..|s|] == s[p..] && s[e..|s|] == s[e..] && s[0..p] == s[..p] && s[0..|s|] == s
    ensures At(s[e..], 0) == At(s, e) && At(s[e..], 1) == At(s, e + 1)
  {
  }

  /** Digits up to the first octal end belong to the number. */
  lemma {:induction false} OctalRun(s: string, p: nat)
    ensures forall j :: p <= j < SkipOctal(s, p) ==> '0' <= At(s, j) <= '7'
    decreases |s| - p
  {
    if '0' <= At(s, p) <= '7' {
      OctalRun(s, p + 1);
    }
  }

  /** The character behind the digits before the dot is none of them. */
  lemma WholeStops(s: string, p1: nat, st: Style, q: nat, a: string, dot: bool, b: string)
    requires IsRun(s, p1, st, q, a, dot, b) && q > st.start && 2 <= st.radix <= 36
    ensures p1 + |a| <= |s| && s[p1..p1 + |a|] == a && ToDigit(At(s, p1 + |a|)) >= st.radix
    ensures !dot ==> p1 + |a| == q
  {
    assert a == s[p1..q][..|a|];
    if dot {
      assert s[p1..q][|a|] == '.';
    }
  }

  lemma PrefixFits(s: string, l: Literal, p: nat, p1: nat, q: nat, radix0: nat, flags: Flags, st: Style)
    requires (radix0 == 0 || 2 <= radix0 <= 36) && 2 <= st.radix <= 36 && p == st.start < q
    requires IsPrefix(s, p, p1, radix0, flags, st.radix, st.sep) && l.prefix == s[p..p1]
    requires IsRun(s, p1, st, q, l.whole, l.dot, l.fraction)
    ensures PrefixRule(l, radix0, flags, st.radix, st.sep)
  {
    hide SkipOctal, IsRun;
    if p1 == p {
      assert l.prefix == "";
      NoPrefixFits(s, l, p, q, radix0, flags, st);
    } else if p1 == p + 2 {
      assert |l.prefix| == 2;
    }
  }

  lemma NoPrefixFits(s: string, l: Literal, p: nat, q: nat, radix0: nat, flags: Flags, st: Style)
    requires (radix0 == 0 || 2 <= radix0 <= 36) && 2 <= st.radix <= 36 && p == st.start < q
    requires IsPrefix(s, p, p, radix0, flags, st.radix, st.sep) && l.prefix == ""
    requires IsRun(s, p, st, q, l.whole, l.dot, l.fraction)
    ensures PrefixRule(l, radix0, flags, st.radix, st.sep)
  {
    hide SkipOctal, IsRun;
    var a := l.whole;
    WholeStops(s, p, st, q, a, l.dot, l.fraction);
    OctalChar(At(s, p + 1));
    assert |a| >= 1 ==> a[0] == s[p];
    assert |a| >= 2 ==> a[1] == s[p + 1];
    if OldOctal(a, radix0, flags) {
      HighDigit(s, p, a);
    } else if |a| == 0 {
      assert At(s, p) != '0';
    }
  }

  /** A decimal run that is not octal has an 8 or a 9 in it. */
  lemma HighDigit(s: string, p: nat, a: string)
    requires p + |a| <= |s| && s[p..p + |a|] == a && |a| >= 1 && ToDigit(At(s, p + |a|)) >= 10
    requires At(s, SkipOctal(s, p + 1)) == '8' || At(s, SkipOctal(s, p + 1)) == '9'
    ensures exists i :: 0 <= i < |a| && (a[i] == '8' || a[i] == '9')
  {
    hide SkipOctal;
    var k := SkipOctal(s, p + 1);
    OctalRun(s, p + 1);
    SkipForward(s, p + 1);
    OctalChar(At(s, p + |a|));
    assert p + |a| > k;
    assert a[k - p] == s[k];
  }

  lemma {:induction false} SkipForward(s: string, p: nat)
    ensures p <= SkipOctal(s, p)
    decreases |s| - p
  {
    if '0' <= At(s, p) <= '7' {
      SkipForward(s, p + 1);
    }
  }

  lemma RulesFit(s: string, l: Literal, tail: string, p: nat, p1: nat, q: nat, radix0: nat, flags: Flags, st: Style)
    requires (radix0 == 0 || 2 <= radix0 <= 36) && 2 <= st.radix <= 36 && p == st.start < q && st.intOnly == flags.intOnly
    requires IsPrefix(s, p, p1, radix0, flags, st.radix, st.sep)
    requires IsRun(s, p1, st, q, l.whole, l.dot, l.fraction) && IsPower(s, q, st, flags, l.power)
    requires Splits(s, l, tail, p, p1, q, q + |PowerText(l.power)|) && l.prefix == s[p..p1]
    ensures DigitsRule(l, flags, st.radix, st.sep) && PowerRule(l.power, flags, st.radix, st.sep)
    ensures TailRule(l, flags, st.radix, st.sep, tail)
  {
    hide IsRun, Splits, IsPrefix, DigitsRule, TailRule;
    DigitsFit(s, l, p, p1, q, radix0, flags, st);
    TailFits(s, l, tail, p, p1, q, flags, st);
  }

  lemma DigitsFit(s: string, l: Literal, p: nat, p1: nat, q: nat, radix0: nat, flags: Flags, st: Style)
    requires 2 <= st.radix <= 36 && p == st.start < q && st.intOnly == flags.intOnly
    requires IsPrefix(s, p, p1, radix0, flags, st.radix, st.sep) && l.prefix == s[p..p1]
    requires IsRun(s, p1, st, q, l.whole, l.dot, l.fraction)
    ensures DigitsRule(l, flags, st.radix, st.sep)
  {
    hide Grouped, SkipOctal, Stops;
    WholeStops(s, p1, st, q, l.whole, l.dot, l.fraction);
    assert l.whole != "" ==> l.whole[0] == s[p1];
  }

  lemma TailFits(s: string, l: Literal, tail: string, p: nat, p1: nat, q: nat, flags: Flags, st: Style)
    requires 2 <= st.radix <= 36 && p == st.start < q && st.intOnly == flags.intOnly
    requires IsRun(s, p1, st, q, l.whole, l.dot, l.fraction) && IsPower(s, q, st, flags, l.power)
    requires Splits(s, l, tail, p, p1, q, q + |PowerText(l.power)|)
    ensures TailRule(l, flags, st.radix, st.sep, tail)
  {
    hide Grouped, TextOfLiteral, Body, IsMark, PowerRule;
  }

  lemma ZeroFits(s: string, l: Literal, tail: string, p: nat, p1: nat, q: nat, radix0: nat, flags: Flags, st: Style)
    requires (radix0 == 0 || 2 <= radix0 <= 36) && 2 <= st.radix <= 36 && p == st.start < q
    requires IsPrefix(s, p, p1, radix0, flags, st.radix, st.sep)
    requires IsRun(s, p1, st, q, l.whole, l.dot, l.fraction)
    requires Splits(s, l, tail, p, p1, q, q + |PowerText(l.power)|) && l.prefix == s[p..p1]
    ensures ZeroRule(l, radix0, flags, tail)
  {
    hide Grouped, SkipOctal, TextOfLiteral, Body, Stops, IsPrefix, IsRun;
    WholeStops(s, p1, st, q, l.whole, l.dot, l.fraction);
    PrefixSize(s, p, p1, radix0, flags, st.radix, st.sep);
    if !l.dot && l.power.NoPower? {
      assert At(tail, 0) == At(s, q);
      if l.prefix == "0" {
        OctalEnd(s, p, p1, radix0, flags, st, q, l.whole);
      } else if l.prefix == "" && l.whole == "0" {
        assert s[p] == s[p1..p1 + 1][0] == '0';
        LoneZero(s, p, radix0, flags, st.radix, st.sep);
      }
    }
  }

  lemma OctalEnd(s: string, p: nat, p1: nat, radix0: nat, flags: Flags, st: Style, q: nat, a: string)
    requires IsPrefix(s, p, p1, radix0, flags, st.radix, st.sep) && p1 == p + 1 && IsRun(s, p1, st, q, a, false, "")
    requires q == p1 + |a| && st.start == p
    ensures At(s, q) != '8' && At(s, q) != '9'
  {
    hide Grouped, SkipOctal;
    OctalChar(At(s, q));
    assert a + ("" + "") == a;
    SkipRun(s, p1, a);
  }

  lemma LoneZero(s: string, p: nat, radix0: nat, flags: Flags, radix: nat, sep: bool)
    requires IsPrefix(s, p, p, radix0, flags, radix, sep) && At(s, p) == '0'
    ensures (radix0 == 0 || radix0 == 16) ==> At(s, p + 1) != 'x' && At(s, p + 1) != 'X'
    ensures radix0 == 0 && flags.binOct ==>
              At(s, p + 1) != 'o' && At(s, p + 1) != 'O' && At(s, p + 1) != 'b' && At(s, p + 1) != 'B'
  {
    hide SkipOctal;
  }

  /** Everything that is read as a number is described by the grammar. */
  lemma AcceptedLiteral(s: string, radix0: nat, flags: Flags) returns (l: Literal, radix: nat, sep: bool, tail: string)
    requires (radix0 == 0 || 2 <= radix0 <= 36) && Read(s, radix0, flags).Number?
    ensures s == TextOfLiteral(l) + tail && Fits(l, radix0, flags, radix, sep, tail)
  {
    hide Grouped, SkipOctal, TextOfLiteral, Body, Stops, Prefix, ScanDigits, ScanExponent, PowerText, IsRun, IsPower, IsPrefix,
         PrefixRule, DigitsRule, PowerRule, TailRule, ZeroRule;
    var p := AfterSign(s);
    SignInText(s);
    PrefixPart(s, p, radix0, flags);
    var begin := Prefix(s, p, radix0, flags);
    radix, sep := begin.radix, begin.sep;
    var st := Style(p, radix, sep, flags.intOnly);
    PrefixSize(s, p, begin.p, radix0, flags, radix, sep);
    var a, dot, b := RunParts(s, begin.p, st, 0);
    var q := ScanDigits(s, begin.p, st, -1, 0).next;
    RunSize(s, begin.p, st, q, a, dot, b);
    if q == p {
      NoPowerAtStart(s, p, st);
      assert false;
    }
    var w := PowerPart(s, q, st, flags);
    PowerSize(s, q, st, flags, w);
    l, tail := Assemble(s, p, begin.p, q, a, dot, b, w);
    PrefixFits(s, l, p, begin.p, q, radix0, flags, st);
    RulesFit(s, l, tail, p, begin.p, q, radix0, flags, st);
    ZeroFits(s, l, tail, p, begin.p, q, radix0, flags, st);
    SignIs(s);
  }

  lemma SignInText(s: string)
    ensures AfterSign(s) <= |s|
  {
  }

  lemma SignIs(s: string)
    ensures AfterSign(s) <= |s|
    ensures s[..AfterSign(s)] == "" || s[..AfterSign(s)] == "+" || s[..AfterSign(s)] == "-"
  {
  }

  lemma PrefixSize(s: string, p: nat, p1: nat, radix0: nat, flags: Flags, radix: nat, sep: bool)
    requires IsPrefix(s, p, p1, radix0, flags, radix, sep)
    ensures p <= p1 <= |s| && (flags.intOnly || !("Infinity" <= s[p..]))
  {
  }

  lemma RunSize(s: string, p: nat, st: Style, q: nat, a: string, dot: bool, b: string)
    requires IsRun(s, p, st, q, a, dot, b)
    ensures p <= q <= |s| && s[p..q] == a + ((if dot then "." else "") + b)
  {
  }

  lemma PowerSize(s: string, p: nat, st: Style, flags: Flags, w: Power)
    requires IsPower(s, p, st, flags, w)
    ensures p + |PowerText(w)| <= |s| && s[p..p + |PowerText(w)|] == PowerText(w)
  {
  }

  lemma NoPowerAtStart(s: string, p: nat, st: Style)
    requires st.start == p
    ensures ScanExponent(s, p, st) == NoExponent
  {
  }

  lemma InfinityPart(s: string, radix0: nat, flags: Flags)
    requires (radix0 == 0 || 2 <= radix0 <= 36) && Read(s, radix0, flags).Infinity?
    ensures !flags.intOnly && AfterSign(s) <= |s| && "Infinity" <= s[AfterSign(s)..]
  {
    hide SkipOctal, ScanDigits, ScanExponent;
  }

  lemma InfinityText(s: string, p: nat)
    requires p <= |s| && "Infinity" <= s[p..]
    ensures s == s[..p] + "Infinity" + s[p..][8..]
  {
    var tail := s[p..][8..];
    assert s[p..] == "Infinity" + tail;
    assert s == s[..p] + ("Infinity" + tail);
    Associate(s[..p], "Infinity", tail);
  }

  /** And everything that is read as infinity is the word. */
  lemma AcceptedInfinity(s: string, radix0: nat, flags: Flags)
    requires (radix0 == 0 || 2 <= radix0 <= 36) && Read(s, radix0, flags).Infinity?
    ensures !flags.intOnly && exists sign, tail :: (sign == "" || sign == "+" || sign == "-") && s == sign + "Infinity" + tail
  {
    hide Read, AfterSign;
    SignIs(s);
    InfinityPart(s, radix0, flags);
    InfinityText(s, AfterSign(s));
  }

  /** s starts with the literal. */
  ghost predicate Begins(s: string, l: Literal, radix0: nat, flags: Flags, radix: nat, sep: bool, tail: string) {
    s == TextOfLiteral(l) + tail && Fits(l, radix0, flags, radix, sep, tail)
  }

  ghost predicate BeginsWithWord(s: string, sign: string, tail: string) {
    (sign == "" || sign == "+" || sign == "-") && s == sign + "Infinity" + tail
  }

  /** Exactly the texts that start with a literal are numbers, exactly those that start with the word are infinite, and
      all others are rejected. */
  lemma Accepts(s: string, radix0: nat, flags: Flags)
    requires radix0 == 0 || 2 <= radix0 <= 36
    ensures var n := Read(s, radix0, flags);
            && (n.Number? <==> exists l, radix, sep, tail :: Begins(s, l, radix0, flags, radix, sep, tail))
            && (n.Infinity? <==> !flags.intOnly && exists sign, tail :: BeginsWithWord(s, sign, tail))
  {
    hide Read, Fits, TextOfLiteral;
    if Read(s, radix0, flags).Number? {
      var l, radix, sep, tail := AcceptedLiteral(s, radix0, flags);
      assert Begins(s, l, radix0, flags, radix, sep, tail);
    } else if l, radix, sep, tail :| Begins(s, l, radix0, flags, radix, sep, tail) {
      ReadLiteral(l, radix0, flags, radix, sep, tail);
    }
    if Read(s, radix0, flags).Infinity? {
      AcceptedInfinity(s, radix0, flags);
      var sign, tail :| (sign == "" || sign == "+" || sign == "-") && s == sign + "Infinity" + tail;
      assert BeginsWithWord(s, sign, tail);
    } else if !flags.intOnly && exists sign, tail :: BeginsWithWord(s, sign, tail) {
      var sign, tail :| BeginsWithWord(s, sign, tail);
      ReadInfinity(sign, radix0, flags, tail);
    }
  }

  // ----- where a text is rejected -----

  /** A prefix has been read, and no digit follows. */
  ghost predicate BarePrefix(s: string, p: nat, q: nat, radix0: nat, flags: Flags) {
    q == p + 2 <= |s| && exists radix: nat :: LetterRule(s[p..q], radix0, flags, radix) && ToDigit(At(s, q)) >= radix
  }

  /** A number and the start of an exponent have been read, and no decimal digit follows. */
  ghost predicate BareExponent(s: string, q: nat, radix0: nat, flags: Flags, l: Literal, radix: nat, sep: bool, mark: char, sign: string) {
    && l.power == NoPower && !flags.intOnly && (l.sign == "" || l.sign == "+" || l.sign == "-")
    && PrefixRule(l, radix0, flags, radix, sep) && DigitsRule(l, flags, radix, sep) && IsMark(mark, radix)
    && q <= |s| && s[..q] == TextOfLiteral(l) + [mark] + sign && ToDigit(At(s, q)) >= 10
    && (sign == "+" || sign == "-" || (sign == "" && At(s, q) != '+' && At(s, q) != '-'))
  }

  /** The position that js_atod reports for a text that is no number: behind the sign, behind a prefix without digits, or
      behind the start of an exponent without digits. */
  lemma RejectedAt(s: string, radix0: nat, flags: Flags)
    requires (radix0 == 0 || 2 <= radix0 <= 36) && Read(s, radix0, flags).Malformed?
    ensures var q := Read(s, radix0, flags).next;
            || q == AfterSign(s) || BarePrefix(s, AfterSign(s), q, radix0, flags)
            || exists l, radix, sep, mark, sign :: BareExponent(s, q, radix0, flags, l, radix, sep, mark, sign)
  {
    hide Grouped, SkipOctal, ScanDigits, ScanExponent, Prefix, IsRun, IsPrefix, MarkerAt, BareExponent;
    var p := AfterSign(s);
    SignInText(s);
    if Prefix(s, p, radix0, flags).BadPrefix? {
      BadPrefixPart(s, p, radix0, flags);
    } else {
      PrefixPart(s, p, radix0, flags);
      var begin := Prefix(s, p, radix0, flags);
      var st := Style(p, begin.radix, begin.sep, flags.intOnly);
      PrefixSize(s, p, begin.p, radix0, flags, begin.radix, begin.sep);
      var a, dot, b := RunParts(s, begin.p, st, 0);
      var q := ScanDigits(s, begin.p, st, -1, 0).next;
      RunSize(s, begin.p, st, q, a, dot, b);
      if ScanExponent(s, q, st).BadExponent? {
        BadExponentPart(s, q, st);
        BareExponentPart(s, p, begin.p, q, radix0, flags, st, a, dot, b);
      }
    }
  }

  lemma BadPrefixPart(s: string, p: nat, radix0: nat, flags: Flags)
    requires (radix0 == 0 || 2 <= radix0 <= 36) && p <= |s| && Prefix(s, p, radix0, flags).BadPrefix?
    ensures BarePrefix(s, p, Prefix(s, p, radix0, flags).at, radix0, flags)
  {
    hide SkipOctal;
    DigitInText(s, p);
    assert p + 1 < |s|;
    OldPrefixDigit(s, p);
    var c := s[p + 1];
    assert s[p..p + 2] == ['0', c];
    var radix := if c == 'x' || c == 'X' then 16 else if c == 'o' || c == 'O' then 8 else 2;
    assert LetterRule(s[p..p + 2], radix0, flags, radix);
  }

  /** Behind an old octal prefix there is a digit. */
  lemma OldPrefixDigit(s: string, p: nat)
    ensures '0' <= At(s, p + 1) <= '9' && At(s, SkipOctal(s, p + 1)) != '8' && At(s, SkipOctal(s, p + 1)) != '9' ==>
              ToDigit(At(s, p + 1)) < 8
  {
  }

  lemma BadExponentPart(s: string, p: nat, st: Style)
    requires 2 <= st.radix <= 36 && ScanExponent(s, p, st).BadExponent?
    ensures MarkerAt(s, p, st) && p < |s|
    ensures var signed := At(s, p + 1) == '+' || At(s, p + 1) == '-';
            && ScanExponent(s, p, st).at == (if signed then p + 2 else p + 1) <= |s|
            && ToDigit(At(s, ScanExponent(s, p, st).at)) >= 10
  {
    hide ScanDecimal, MarkerAt;
    InText(s, p, st);
  }

  lemma BareExponentPart(s: string, p: nat, p1: nat, q: nat, radix0: nat, flags: Flags, st: Style, a: string, dot: bool, b: string)
    requires (radix0 == 0 || 2 <= radix0 <= 36) && 2 <= st.radix <= 36 && p == AfterSign(s) == st.start
    requires st.intOnly == flags.intOnly
    requires IsPrefix(s, p, p1, radix0, flags, st.radix, st.sep) && IsRun(s, p1, st, q, a, dot, b)
    requires MarkerAt(s, q, st) && q < |s|
    ensures var e := if At(s, q + 1) == '+' || At(s, q + 1) == '-' then q + 2 else q + 1;
            && q < e <= |s|
            && (ToDigit(At(s, e)) >= 10 ==>
                  exists l, radix, sep, mark, sign :: BareExponent(s, e, radix0, flags, l, radix, sep, mark, sign))
  {
    hide Grouped, SkipOctal, IsRun, IsPrefix, PrefixRule, DigitsRule, TextOfLiteral, IsMark, MarkerAt;
    MarkerIsMark(s, q, st);
    PrefixSize(s, p, p1, radix0, flags, st.radix, st.sep);
    RunSize(s, p1, st, q, a, dot, b);
    var l, tail := Assemble(s, p, p1, q, a, dot, b, NoPower);
    PrefixFits(s, l, p, p1, q, radix0, flags, st);
    DigitsFit(s, l, p, p1, q, radix0, flags, st);
    SignIs(s);
    SizeOfText(s, l, tail, p, p1, q);
    var e := if At(s, q + 1) == '+' || At(s, q + 1) == '-' then q + 2 else q + 1;
    var sign := s[q + 1..e];
    SplitExponent(s, q, e);
    if ToDigit(At(s, e)) >= 10 {
      assert BareExponent(s, e, radix0, flags, l, st.radix, st.sep, s[q], sign);
    }
  }

  lemma SizeOfText(s: string, l: Literal, tail: string, p: nat, p1: nat, q: nat)
    requires Splits(s, l, tail, p, p1, q, q) && l.power == NoPower
    ensures s[..q] == TextOfLiteral(l)
  {
    assert |TextOfLiteral(l)| == q;
  }

  lemma SplitExponent(s: string, q: nat, e: nat)
    requires q < |s| && q < e <= |s| && e <= q + 2
    ensures s[..e] == s[..q] + [s[q]] + s[q + 1..e]
    ensures s[q + 1..e] == if e == q + 1 then "" else [s[q + 1]]
  {
    Cut(s, 0, q, e);
    Cut(s, q, q + 1, e);
    OneChar(s, q);
    if e == q + 2 {
      OneChar(s, q + 1);
    }
  }

  /** For example, a dot may come first. */
  lemma PointFive(flags: Flags)
    requires !flags.intOnly
    ensures Read(".5", 10, flags) == Number(false, 10, [5], 1, 0, false, 2)
  {
    hide Read;
    var l := Literal("", "", "", true, "5", NoPower);
    assert "" + ("" + ("" + ("." + ("5" + "")))) == ".5";
    assert TextOfLiteral(l) + "" == ".5";
    assert GroupedAt("5", 0, 10, flags.underscores);
    assert "Infinity"[0] == 'I';
    assert Fits(l, 10, flags, 10, flags.underscores, "");
    ReadLiteral(l, 10, flags, 10, flags.underscores, "");
    assert "5"[1..] == "" && Bare("5") == "5" && Bare("") == "";
  }
}
