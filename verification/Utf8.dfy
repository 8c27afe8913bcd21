/** UTF-8 as cutils.h has it: every code point below 0x110000 can be encoded, surrogates included
    (WTF-8), and only shortest forms are decoded. Shifts and masks are written as division and
    remainder. */
module Utf8 {
  import opened Arith

  type Byte = x: int | 0 <= x < 256
  type Unit = x: int | 0 <= x < 0x10000

  const REPLACEMENT: nat := 0xFFFD

  // ----- surrogates -----

  predicate IsHiSurrogate(c: nat) {
    c / 0x400 == 0xD800 / 0x400
  }

  predicate IsLoSurrogate(c: nat) {
    c / 0x400 == 0xDC00 / 0x400
  }

  function HiSurrogate(c: nat): (u: Unit)
    requires 0x10000 <= c < 0x110000
  {
    c / 0x400 - 0x10000 / 0x400 + 0xD800
  }

  function LoSurrogate(c: nat): (u: Unit) {
    c % 0x400 + 0xDC00
  }

  function FromSurrogate(hi: nat, lo: nat): nat {
    65536 + 1024 * (hi % 1024) + lo % 1024
  }

  /** Splitting a code point and joining a pair are inverse to each other. */
  lemma SurrogatesRoundTrip(c: nat, hi: Unit, lo: Unit)
    requires 0x10000 <= c < 0x110000 && IsHiSurrogate(hi) && IsLoSurrogate(lo)
    ensures IsHiSurrogate(HiSurrogate(c)) && IsLoSurrogate(LoSurrogate(c))
    ensures FromSurrogate(HiSurrogate(c), LoSurrogate(c)) == c
    ensures 0x10000 <= FromSurrogate(hi, lo) < 0x110000
    ensures HiSurrogate(FromSurrogate(hi, lo)) == hi && LoSurrogate(FromSurrogate(hi, lo)) == lo
  {
  }

  /** Pairs stand in the order of their code points, in the two surrogate ranges. */
  lemma SurrogatesOrdered(c: nat, d: nat)
    requires 0x10000 <= c < d < 0x110000
    ensures 0xD800 <= HiSurrogate(c) <= HiSurrogate(d) <= 0xDBFF
    ensures 0xDC00 <= LoSurrogate(c) <= 0xDFFF && 0xDC00 <= LoSurrogate(d) <= 0xDFFF
    ensures HiSurrogate(c) == HiSurrogate(d) ==> LoSurrogate(c) < LoSurrogate(d)
  {
  }

  lemma SurrogateRanges(c: nat)
    ensures IsHiSurrogate(c) <==> 0xD800 <= c <= 0xDBFF
    ensures IsLoSurrogate(c) <==> 0xDC00 <= c <= 0xDFFF
  {
  }

  // ----- one code point -----

  function EncodeLen(c: nat): nat {
    if c < 0x80 then 1 else if c < 0x800 then 2 else if c < 0x10000 then 3 else if c < 0x110000 then 4 else 3
  }

  function Encode(c: nat): (s: seq<Byte>)
    ensures |s| == EncodeLen(c)
  {
    if c < 0x80 then [c]
    else if c < 0x800 then [c / 64 + 0xC0, c % 64 + 0x80]
    else if c < 0x10000 then [c / 4096 + 0xE0, c / 64 % 64 + 0x80, c % 64 + 0x80]
    else if c < 0x110000 then [c / 262144 + 0xF0, c / 4096 % 64 + 0x80, c / 64 % 64 + 0x80, c % 64 + 0x80]
    else [REPLACEMENT / 4096 + 0xE0, REPLACEMENT / 64 % 64 + 0x80, REPLACEMENT % 64 + 0x80]
  }

  /** Bytes behind the end read as the terminating NUL. */
  function ByteAt(s: seq<Byte>, i: nat): Byte {
    if i < |s| then s[i] else 0
  }

  predicate Trail(b: Byte) {
    0x80 <= b <= 0xBF
  }

  /** utf8_decode: the code point at i and the next position; on error 0xFFFD and the next byte. */
  function Decode(s: seq<Byte>, i: nat): (r: (nat, nat))
    requires i < |s|
    ensures r.0 < 0x110000 && i < r.1 <= |s|
  {
    var c: int, b1: int, b2: int, b3: int := s[i], ByteAt(s, i + 1), ByteAt(s, i + 2), ByteAt(s, i + 3);
    if c < 0x80 then (c, i + 1)
    else if 0xC2 <= c <= 0xDF && Trail(b1) then ((c - 0xC0) * 64 + (b1 - 0x80), i + 2)
    else if 0xE0 <= c <= 0xEF && (if c == 0xE0 then 0xA0 else 0x80) <= b1 <= 0xBF && Trail(b2) then
      ((c - 0xE0) * 4096 + (b1 - 0x80) * 64 + (b2 - 0x80), i + 3)
    else if 0xF0 <= c <= 0xF4 && (if c == 0xF0 then 0x90 else 0x80) <= b1 <= (if c == 0xF4 then 0x8F else 0xBF)
            && Trail(b2) && Trail(b3) then
      ((c - 0xF0) * 262144 + (b1 - 0x80) * 4096 + (b2 - 0x80) * 64 + (b3 - 0x80), i + 4)
    else (REPLACEMENT, i + 1)
  }

  /** utf8_decode_len looks at the remaining length before it reads on; with a terminating NUL that
      makes no difference. */
  function DecodeLen(s: seq<Byte>, i: nat): (nat, nat)
    requires i < |s|
  {
    var maxLen := |s| - i;
    if (maxLen == 1 && s[i] >= 0x80) || (maxLen == 2 && s[i] >= 0xE0) || (maxLen == 3 && s[i] >= 0xF0)
    then (REPLACEMENT, i + 1)
    else Decode(s, i)
  }

  lemma DecodeLenIsDecode(s: seq<Byte>, i: nat)
    requires i < |s|
    ensures DecodeLen(s, i) == Decode(s, i)
  {
  }

  /** The base-64 digits of a code point. */
  lemma SixBits(c: nat)
    ensures c == c / 64 * 64 + c % 64
    ensures c / 64 == c / 4096 * 64 + c / 64 % 64
    ensures c / 4096 == c / 262144 * 64 + c / 4096 % 64
  {
    NestedDivision(c, 64, 64);
    NestedDivision(c, 4096, 64);
  }

  lemma SliceAt(s: seq<Byte>, i: nat, e: seq<Byte>, k: nat)
    requires i + |e| <= |s| && s[i..i + |e|] == e && k < |e|
    ensures s[i + k] == e[k]
  {
    assert s[i..i + |e|][k] == s[i + k];
  }

  /** Decoding inverts encoding, for every code point, surrogates included. */
  lemma DecodeEncode(c: nat, s: seq<Byte>, i: nat)
    requires c < 0x110000 && i + |Encode(c)| <= |s| && s[i..i + |Encode(c)|] == Encode(c)
    ensures Decode(s, i) == (c, i + |Encode(c)|)
  {
    var e := Encode(c);
    SixBits(c);
    SliceAt(s, i, e, 0);
    if c >= 0x80 {
      SliceAt(s, i, e, 1);
    }
    if c >= 0x800 {
      SliceAt(s, i, e, 2);
    }
    if c >= 0x10000 {
      SliceAt(s, i, e, 3);
    }
  }

  /** A form of several bytes is accepted only if it is the encoding of the result: no overlong
      forms, nothing beyond 0x10FFFF. A single byte is ASCII or an error. */
  lemma EncodeDecode(s: seq<Byte>, i: nat)
    requires i < |s|
    ensures var (c, next) := Decode(s, i);
            if next > i + 1 then s[i..next] == Encode(c) && c >= 0x80
            else if s[i] < 0x80 then c == s[i] else c == 0xFFFD
  {
    var (c, next) := Decode(s, i);
    var x: int := s[i];
    if next == i + 2 {
      var y: int := s[i + 1];
      Digits64(c, x - 0xC0, y - 0x80);
    } else if next == i + 3 {
      var y: int, z: int := s[i + 1], s[i + 2];
      Digits64(c, (x - 0xE0) * 64 + (y - 0x80), z - 0x80);
      Digits64(c / 64, x - 0xE0, y - 0x80);
    } else if next == i + 4 {
      var y: int, z: int, w: int := s[i + 1], s[i + 2], s[i + 3];
      Digits64(c, ((x - 0xF0) * 64 + (y - 0x80)) * 64 + (z - 0x80), w - 0x80);
      Digits64(c / 64, (x - 0xF0) * 64 + (y - 0x80), z - 0x80);
      Digits64(c / 4096, x - 0xF0, y - 0x80);
    }
    if next > i + 1 {
      assert s[i..next] == Encode(c);
    }
  }

  lemma Digits64(c: nat, high: nat, low: nat)
    requires c == high * 64 + low && low < 64
    ensures c / 64 == high && c % 64 == low
    ensures c / 4096 == high / 64 && c / 262144 == high / 4096
  {
    NestedDivision(c, 64, 64);
    NestedDivision(c, 64, 4096);
  }

  // ----- the form of the bytes -----

  /** The bits of the code point in a lead byte, behind its length mark. */
  function LeadBits(b: Byte): nat {
    if b < 0x80 then b else if b < 0xE0 then b % 0x20 else if b < 0xF0 then b % 0x10 else b % 8
  }

  /** The bits of all bytes in a row, six in each byte behind the first (section 3 of RFC 3629). */
  function Payload(e: seq<Byte>): nat
    requires |e| > 0
  {
    if |e| == 1 then LeadBits(e[0]) else Payload(e[..|e| - 1]) * 64 + e[|e| - 1] % 64
  }

  lemma Payloads(a: Byte, b: Byte, c: Byte, d: Byte)
    ensures Payload([a]) == LeadBits(a)
    ensures Payload([a, b]) == LeadBits(a) * 64 + b % 64
    ensures Payload([a, b, c]) == (LeadBits(a) * 64 + b % 64) * 64 + c % 64
    ensures Payload([a, b, c, d]) == ((LeadBits(a) * 64 + b % 64) * 64 + c % 64) * 64 + d % 64
  {
    hide LeadBits;
    assert [a, b][..1] == [a] && [a, b, c][..2] == [a, b] && [a, b, c, d][..3] == [a, b, c];
  }

  /** The shortest form of c: the lead byte tells the length, the others are trail bytes. */
  lemma EncodeForm(c: nat)
    requires c < 0x110000
    ensures var e := Encode(c);
            && (|e| == 1 <==> c < 0x80) && (|e| <= 2 <==> c < 0x800) && (|e| <= 3 <==> c < 0x10000) && |e| <= 4
            && (|e| == 1 <==> e[0] < 0x80) && (|e| == 2 <==> 0xC2 <= e[0] <= 0xDF)
            && (|e| == 3 <==> 0xE0 <= e[0] <= 0xEF) && (|e| == 4 <==> 0xF0 <= e[0] <= 0xF4)
            && (forall k :: 1 <= k < |e| ==> 0x80 <= e[k] <= 0xBF)
  {
  }

  /** Together the bytes carry the bits of c. */
  lemma EncodeBits(c: nat)
    requires c < 0x110000
    ensures Payload(Encode(c)) == c
  {
    hide Payload, Encode;
    var e := Encode(c);
    Payloads(e[0], if |e| > 1 then e[1] else 0, if |e| > 2 then e[2] else 0, if |e| > 3 then e[3] else 0);
    SixBits(c);
    if c < 0x80 {
      OneByte(c);
    } else if c < 0x800 {
      TwoBytes(c);
      assert e == [e[0], e[1]];
    } else if c < 0x10000 {
      ThreeBytes(c);
      assert e == [e[0], e[1], e[2]];
    } else {
      FourBytes(c);
      assert e == [e[0], e[1], e[2], e[3]];
    }
  }

  lemma TrailBits(x: nat)
    requires x < 64
    ensures (x + 0x80) % 64 == x
  {
  }

  lemma OneByte(c: nat)
    requires c < 0x80
    ensures Encode(c) == [c] && LeadBits(c) == c
  {
  }

  lemma TwoBytes(c: nat)
    requires 0x80 <= c < 0x800
    ensures var e := Encode(c); |e| == 2 && LeadBits(e[0]) == c / 64 && e[1] % 64 == c % 64
  {
    TrailBits(c % 64);
  }

  lemma ThreeBytes(c: nat)
    requires 0x800 <= c < 0x10000
    ensures var e := Encode(c);
            |e| == 3 && LeadBits(e[0]) == c / 4096 && e[1] % 64 == c / 64 % 64 && e[2] % 64 == c % 64
  {
    TrailBits(c % 64);
    TrailBits(c / 64 % 64);
  }

  lemma FourBytes(c: nat)
    requires 0x10000 <= c < 0x110000
    ensures var e := Encode(c);
            && |e| == 4 && LeadBits(e[0]) == c / 262144
            && e[1] % 64 == c / 4096 % 64 && e[2] % 64 == c / 64 % 64 && e[3] % 64 == c % 64
  {
    TrailBits(c % 64);
    TrailBits(c / 64 % 64);
    TrailBits(c / 4096 % 64);
  }

  /** e comes before f in the order of the bytes. */
  ghost predicate Before(e: seq<Byte>, f: seq<Byte>) {
    exists k :: 0 <= k < |e| && k < |f| && e[..k] == f[..k] && e[k] < f[k]
  }

  /** The encodings stand in the order of their code points. */
  lemma EncodeOrdered(c: nat, d: nat)
    requires c < d < 0x110000
    ensures Before(Encode(c), Encode(d))
  {
    var e, f := Encode(c), Encode(d);
    SixBits(c);
    SixBits(d);
    if e[0] < f[0] {
      assert e[..0] == f[..0];
    } else if e[1] < f[1] {
      assert e[..1] == f[..1];
    } else if e[2] < f[2] {
      assert e[..2] == f[..2];
    } else {
      assert e[..3] == f[..3];
    }
  }

  /** Beyond the last code point the replacement character is encoded. */
  lemma EncodeBeyond(c: nat)
    requires c >= 0x110000
    ensures Encode(c) == Encode(0xFFFD)
  {
  }
}
