/** The buffer conversions of cutils.h: counting, truncating encoders and decoders, and the scan that
    predicts them. */
module Utf8Buffers {
  import opened Arith
  import opened Utf8

  // ----- whole texts -----

  /** The code point that starts at unit i, a surrogate pair counting as one, and the next position. */
  function NextChar(src: seq<Unit>, i: nat): (r: (nat, nat))
    requires i < |src|
    ensures r.0 < 0x110000 && i < r.1 <= |src| && (r.1 == i + 2 <==> r.0 > 0xFFFF) && r.1 <= i + 2
  {
    if IsHiSurrogate(src[i]) && i + 1 < |src| && IsLoSurrogate(src[i + 1])
    then (FromSurrogate(src[i], src[i + 1]), i + 2)
    else (src[i], i + 1)
  }

  /** The encoding of the units from i on. */
  function EncodeFrom(src: seq<Unit>, i: nat): (s: seq<Byte>)
    decreases |src| - i
  {
    if i >= |src| then [] else
      var (c, next) := NextChar(src, i);
      Encode(c) + EncodeFrom(src, next)
  }

  function Units(c: nat): (u: seq<Unit>)
    requires c < 0x110000
    ensures |u| == if c > 0xFFFF then 2 else 1
  {
    if c > 0xFFFF then [HiSurrogate(c), LoSurrogate(c)] else [c]
  }

  /** The units of the bytes from i on. */
  function DecodeFrom(s: seq<Byte>, i: nat): (u: seq<Unit>)
    decreases |s| - i
  {
    if i >= |s| then [] else
      var (c, next) := Decode(s, i);
      Units(c) + DecodeFrom(s, next)
  }

  lemma UnitsOfNext(src: seq<Unit>, i: nat)
    requires i < |src|
    ensures var (c, next) := NextChar(src, i); Units(c) == src[i..next]
  {
    hide HiSurrogate, LoSurrogate, FromSurrogate, IsHiSurrogate, IsLoSurrogate;
    var (c, next) := NextChar(src, i);
    if next == i + 2 {
      SurrogatesRoundTrip(0x10000, src[i], src[i + 1]);
      assert src[i..next] == [src[i], src[i + 1]];
    } else {
      assert src[i..next] == [src[i]];
    }
  }

  /** Decoding the encoding of any units, lone surrogates included, gives them back. */
  lemma {:induction false} UnitsRoundTrip(src: seq<Unit>, i: nat, p: seq<Byte>)
    requires i <= |src|
    ensures DecodeFrom(p + EncodeFrom(src, i), |p|) == src[i..]
    decreases |src| - i
  {
    hide Decode, Encode, NextChar;
    if i < |src| {
      var (c, next) := NextChar(src, i);
      var e := Encode(c);
      var s := p + EncodeFrom(src, i);
      assert s == (p + e) + EncodeFrom(src, next);
      assert s[|p|..|p| + |e|] == e;
      DecodeEncode(c, s, |p|);
      UnitsRoundTrip(src, next, p + e);
      UnitsOfNext(src, i);
      assert src[i..] == src[i..next] + src[next..];
    }
  }

  lemma RoundTrip(src: seq<Unit>)
    ensures DecodeFrom(EncodeFrom(src, 0), 0) == src
  {
    UnitsRoundTrip(src, 0, []);
    assert [] + EncodeFrom(src, 0) == EncodeFrom(src, 0);
  }

  // ----- texts of code points -----

  ghost predicate CodePoints(cs: seq<nat>) {
    forall k :: 0 <= k < |cs| ==> cs[k] < 0x110000
  }

  /** Code points that are no surrogates. */
  ghost predicate Scalars(cs: seq<nat>) {
    forall k :: 0 <= k < |cs| ==> cs[k] < 0xD800 || 0xDFFF < cs[k] < 0x110000
  }

  ghost function Utf8Text(cs: seq<nat>): seq<Byte> {
    if |cs| == 0 then [] else Encode(cs[0]) + Utf8Text(cs[1..])
  }

  ghost function Utf16Text(cs: seq<nat>): seq<Unit>
    requires CodePoints(cs)
  {
    if |cs| == 0 then [] else Units(cs[0]) + Utf16Text(cs[1..])
  }

  lemma NextScalar(src: seq<Unit>, i: nat, c: nat)
    requires c < 0xD800 || 0xDFFF < c < 0x110000
    requires i + |Units(c)| <= |src| && src[i..i + |Units(c)|] == Units(c)
    ensures NextChar(src, i) == (c, i + |Units(c)|)
  {
    hide HiSurrogate, LoSurrogate, FromSurrogate;
    var n := |Units(c)|;
    assert src[i] == src[i..i + n][0];
    if c > 0xFFFF {
      assert src[i + 1] == src[i..i + n][1];
      SurrogatesRoundTrip(c, 0xD800, 0xDC00);
    }
  }

  /** The UTF-16 text of any characters is encoded as their UTF-8 text: every pair as one character. */
  lemma {:induction false} EncodeText(cs: seq<nat>, p: seq<Unit>)
    requires Scalars(cs)
    ensures EncodeFrom(p + Utf16Text(cs), |p|) == Utf8Text(cs)
    decreases |cs|
  {
    hide Encode, NextChar, Units;
    if |cs| > 0 {
      var u, src := Units(cs[0]), p + Utf16Text(cs);
      assert src == (p + u) + Utf16Text(cs[1..]);
      assert src[|p|..|p| + |u|] == u;
      NextScalar(src, |p|, cs[0]);
      EncodeText(cs[1..], p + u);
    }
  }

  /** And the other way, for all code points. */
  lemma {:induction false} DecodeText(cs: seq<nat>, p: seq<Byte>)
    requires CodePoints(cs)
    ensures DecodeFrom(p + Utf8Text(cs), |p|) == Utf16Text(cs)
    decreases |cs|
  {
    hide Encode, Decode, Units;
    if |cs| > 0 {
      var e, s := Encode(cs[0]), p + Utf8Text(cs);
      assert s == (p + e) + Utf8Text(cs[1..]);
      assert s[|p|..|p| + |e|] == e;
      DecodeEncode(cs[0], s, |p|);
      DecodeText(cs[1..], p + e);
    }
  }

  // ----- encoding into a buffer -----

  /** The position behind n characters. */
  function Start(src: seq<Unit>, n: nat): (i: nat)
    ensures i <= |src|
  {
    if n == 0 then 0 else
      var i := Start(src, n - 1);
      if i < |src| then NextChar(src, i).1 else i
  }

  /** Bytes b stand in the first places of the buffer. */
  ghost predicate Holds(dest: seq<Byte>, b: seq<Byte>) {
    b <= dest
  }

  /** What the truncating encoders leave in the first destLen places: everything and a NUL if it fits;
      otherwise as many whole characters as fit together with a NUL. */
  ghost predicate Truncated(dest: seq<Byte>, src: seq<Unit>, n: nat) {
    var i, all := Start(src, n), EncodeFrom(src, 0);
    exists b: seq<Byte> ::
      && all == b + EncodeFrom(src, i) && |b| < |dest| && Holds(dest, b) && dest[|b|] == 0
      && (i < |src| ==> |b| + |Encode(NextChar(src, i).0)| >= |dest|)
  }

  lemma EncodeStep(src: seq<Unit>, n: nat, b: seq<Byte>)
    requires Start(src, n) < |src| && EncodeFrom(src, 0) == b + EncodeFrom(src, Start(src, n))
    ensures var (c, next) := NextChar(src, Start(src, n));
            && next == Start(src, n + 1)
            && EncodeFrom(src, 0) == (b + Encode(c)) + EncodeFrom(src, next)
  {
    hide Encode, NextChar;
    var i := Start(src, n);
    var (c, next) := NextChar(src, i);
    assert EncodeFrom(src, i) == Encode(c) + EncodeFrom(src, next);
    assert b + (Encode(c) + EncodeFrom(src, next)) == (b + Encode(c)) + EncodeFrom(src, next);
  }

  /** Stores the encoding of c at j. */
  method Put(dest: array<Byte>, j: nat, c: nat) returns (j': nat)
    requires j + |Encode(c)| <= dest.Length
    modifies dest
    ensures j' == j + |Encode(c)| && dest[..j'] == old(dest[..j]) + Encode(c) && dest[j'..] == old(dest[j'..])
  {
    hide Encode;
    var e := Encode(c);
    for k := 0 to |e|
      invariant dest[..j] == old(dest[..j]) && dest[j..j + k] == e[..k] && dest[j + |e|..] == old(dest[j + |e|..])
    {
      dest[j + k] := e[k];
    }
    assert dest[..j + |e|] == dest[..j] + dest[j..j + |e|];
    j' := j + |e|;
  }

  /** The bytes still to be counted after an overflow at unit i0. */
  method CountRest(src: seq<Unit>, i0: nat, j0: nat) returns (j: nat)
    requires i0 <= |src|
    ensures j == j0 + |EncodeFrom(src, i0)|
  {
    hide Encode;
    var i := i0;
    j := j0;
    while i < |src|
      invariant i <= |src| && j + |EncodeFrom(src, i)| == j0 + |EncodeFrom(src, i0)|
    {
      NotPaired(src, i);
      var c: nat := src[i];
      i := i + 1;
      if c < 0x80 {
        j := j + 1;
      } else {
        if IsHiSurrogate(c) && i < |src| && IsLoSurrogate(src[i]) {
          c := FromSurrogate(c, src[i]);
          i := i + 1;
        }
        j := j + EncodeLen(c);
      }
    }
  }

  /** ASCII is no surrogate. */
  lemma NotPaired(src: seq<Unit>, i: nat)
    requires i < |src|
    ensures src[i] < 0x80 ==> NextChar(src, i) == (src[i] as int, i + 1) && |Encode(src[i])| == 1
  {
  }

  lemma Fits(dest: seq<Byte>, b: seq<Byte>, src: seq<Unit>, n: nat)
    requires EncodeFrom(src, 0) == b + EncodeFrom(src, Start(src, n)) && b <= dest && |b| < |dest| && dest[|b|] == 0
    requires Start(src, n) < |src| ==> |b| + |Encode(NextChar(src, Start(src, n)).0)| >= |dest|
    ensures Truncated(dest, src, n)
  {
    assert Holds(dest, b);
  }

  /** The terminating NUL, if there is room for it. */
  method Terminate(dest: array<Byte>, j: nat, destLen: nat, ghost src: seq<Unit>, ghost n: nat)
    requires j <= destLen <= dest.Length && EncodeFrom(src, 0) == dest[..j] + EncodeFrom(src, Start(src, n))
    requires Start(src, n) < |src| ==> j + |Encode(NextChar(src, Start(src, n)).0)| >= destLen
    modifies dest
    ensures dest[..j] == old(dest[..j]) && dest[destLen..] == old(dest[destLen..])
    ensures j < destLen ==> dest[j] == 0 && Truncated(dest[..destLen], src, n)
  {
    hide Encode, NextChar, Truncated;
    if j < destLen {
      ghost var b := dest[..j];
      dest[j] := 0;
      assert dest[..j] == b;
      Fits(dest[..destLen], b, src, n);
    }
  }

  /** utf8_encode_buf16: the result is the full length whatever the size of the buffer, which gets a
      NUL-terminated prefix that ends on a whole character; nothing is written beyond destLen. */
  method EncodeBuf16(dest: array<Byte>, destLen: nat, src: seq<Unit>) returns (j: nat)
    requires destLen <= dest.Length
    modifies dest
    ensures j == |EncodeFrom(src, 0)|
    ensures dest[destLen..] == old(dest[destLen..])
    ensures j < destLen ==> dest[..j] == EncodeFrom(src, 0) && dest[j] == 0
    ensures destLen > 0 ==> exists n :: Truncated(dest[..destLen], src, n)
  {
    hide Encode, NextChar, Truncated;
    ghost var all := EncodeFrom(src, 0);
    ghost var n := 0;
    var i := 0;
    j := 0;
    while i < |src|
      invariant i == Start(src, n) && j <= destLen && (j < destLen || j == 0)
      invariant all == dest[..j] + EncodeFrom(src, i)
      invariant dest[destLen..] == old(dest[destLen..])
    {
      EncodeStep(src, n, dest[..j]);
      NextOf(src, i);
      var c: nat := src[i];
      i := i + 1;
      if c >= 0x80 && IsHiSurrogate(c) && i < |src| && IsLoSurrogate(src[i]) {
        c := FromSurrogate(c, src[i]);
        i := i + 1;
      }
      if j + EncodeLen(c) >= destLen {
        i := i - (if c > 0xFFFF then 2 else 1);
        Terminate(dest, j, destLen, src, n);
        var rest := CountRest(src, i, j);
        return rest;
      }
      ghost var tail := dest[destLen..];
      ghost var behind := j + EncodeLen(c);
      j := Put(dest, j, c);
      assert dest[destLen..] == dest[behind..][destLen - behind..];
      n := n + 1;
    }
    assert EncodeFrom(src, |src|) == [];
    assert all == dest[..j];
    Terminate(dest, j, destLen, src, n);
  }

  lemma NextOf(src: seq<Unit>, i: nat)
    requires i < |src|
    ensures NextChar(src, i) ==
            if src[i] >= 0x80 && IsHiSurrogate(src[i]) && i + 1 < |src| && IsLoSurrogate(src[i + 1])
            then (FromSurrogate(src[i], src[i + 1]), i + 2) else (src[i] as int, i + 1)
  {
  }

  lemma SingleUnit(src: seq<Unit>, i: nat)
    requires i < |src| && src[i] < 256
    ensures NextChar(src, i) == (src[i] as int, i + 1)
  {
  }

  /** The same count for units below 256. */
  method CountBytes(src: seq<Unit>, i0: nat, j0: nat) returns (j: nat)
    requires i0 <= |src| && forall k :: 0 <= k < |src| ==> src[k] < 256
    ensures j == j0 + |EncodeFrom(src, i0)|
  {
    hide Encode, NextChar;
    var i := i0;
    j := j0;
    while i < |src|
      invariant i <= |src| && j + |EncodeFrom(src, i)| == j0 + |EncodeFrom(src, i0)|
    {
      SingleUnit(src, i);
      j := j + 1 + (if src[i] >= 0x80 then 1 else 0);
      i := i + 1;
    }
  }

  /** utf8_encode_buf8, for units below 256. */
  method EncodeBuf8(dest: array<Byte>, destLen: nat, src: seq<Unit>) returns (j: nat)
    requires destLen <= dest.Length && forall k :: 0 <= k < |src| ==> src[k] < 256
    modifies dest
    ensures j == |EncodeFrom(src, 0)|
    ensures dest[destLen..] == old(dest[destLen..])
    ensures j < destLen ==> dest[..j] == EncodeFrom(src, 0) && dest[j] == 0
    ensures destLen > 0 ==> exists n :: Truncated(dest[..destLen], src, n)
  {
    hide Encode, NextChar, Truncated;
    ghost var all := EncodeFrom(src, 0);
    var i := 0;
    j := 0;
    while i < |src|
      invariant i <= |src| && i == Start(src, i) && j <= destLen && (j < destLen || j == 0)
      invariant all == dest[..j] + EncodeFrom(src, i)
      invariant dest[destLen..] == old(dest[destLen..])
    {
      SingleUnit(src, i);
      EncodeStep(src, i, dest[..j]);
      var c: nat := src[i];
      if j + (if c < 0x80 then 1 else 2) >= destLen {
        Terminate(dest, j, destLen, src, i);
        var rest := CountBytes(src, i, j);
        return rest;
      }
      ghost var behind := j + EncodeLen(c);
      j := Put(dest, j, c);
      assert dest[destLen..] == dest[behind..][destLen - behind..];
      i := i + 1;
    }
    assert all == dest[..j];
    Terminate(dest, j, destLen, src, i);
  }

  // ----- decoding into a buffer -----

  /** dest[i] = u if there is room: one more of the decoded units is stored. */
  ghost predicate Stored(dest: seq<Unit>, before: seq<Unit>, units: seq<Unit>, destLen: nat) {
    && |dest| == |before| && destLen <= |dest|
    && dest[..Min(|units|, destLen)] == units[..Min(|units|, destLen)]
    && dest[Min(|units|, destLen)..] == before[Min(|units|, destLen)..]
  }

  lemma StoreOne(dest: seq<Unit>, before: seq<Unit>, units: seq<Unit>, destLen: nat, u: Unit)
    requires Stored(dest, before, units, destLen)
    ensures |units| < destLen ==> Stored(dest[|units| := u], before, units + [u], destLen)
    ensures |units| >= destLen ==> Stored(dest, before, units + [u], destLen)
  {
    var n := |units|;
    if n < destLen {
      var d := dest[n := u];
      assert d[..n + 1] == units + [u];
      assert d[n + 1..] == dest[n..][1..] == before[n + 1..];
    } else {
      assert (units + [u])[..destLen] == units[..destLen];
    }
  }

  lemma DecodeStep(s: seq<Byte>, i: nat, units: seq<Unit>, all: seq<Unit>)
    requires i < |s| && all == units + DecodeFrom(s, i)
    ensures var (c, next) := Decode(s, i);
            all == (units + Units(c)) + DecodeFrom(s, next)
  {
    hide Decode, Units;
    var (c, next) := Decode(s, i);
    assert units + (Units(c) + DecodeFrom(s, next)) == (units + Units(c)) + DecodeFrom(s, next);
  }

  /** utf8_decode_buf16: the number of units whatever the size of the buffer; as many as fit are
      stored, and nothing beyond destLen. */
  method DecodeBuf16(dest: array<Unit>, destLen: nat, src: seq<Byte>) returns (i: nat)
    requires destLen <= dest.Length
    modifies dest
    ensures i == |DecodeFrom(src, 0)|
    ensures Stored(dest[..], old(dest[..]), DecodeFrom(src, 0), destLen)
  {
    hide Decode, Stored, HiSurrogate, LoSurrogate, DecodeLen;
    ghost var all, before := DecodeFrom(src, 0), dest[..];
    ghost var units: seq<Unit> := [];
    var p := 0;
    i := 0;
    NothingStored(before, destLen);
    while p < |src|
      invariant p <= |src| && i == |units|
      invariant all == units + DecodeFrom(src, p)
      invariant Stored(dest[..], before, units, destLen)
    {
      DecodeStep(src, p, units, all);
      DecodeLenIsDecode(src, p);
      AsciiStep(src, p);
      var c: nat := src[p];
      if c < 0x80 {
        p := p + 1;
      } else {
        var r := DecodeLen(src, p);
        c, p := r.0, r.1;
        if c > 0xFFFF {
          var hi := HiSurrogate(c);
          StoreOne(dest[..], before, units, destLen, hi);
          if i < destLen {
            dest[i] := hi;
          }
          i := i + 1;
          ghost var code := c;
          c := LoSurrogate(c);
          units := units + [hi];
          assert units + [c as Unit] == units[..|units| - 1] + Units(code);
        }
      }
      StoreOne(dest[..], before, units, destLen, c);
      if i < destLen {
        dest[i] := c;
      }
      i := i + 1;
      units := units + [c as Unit];
    }
    assert all == units;
  }

  lemma NothingStored(before: seq<Unit>, destLen: nat)
    requires destLen <= |before|
    ensures Stored(before, before, [], destLen)
  {
  }

  lemma AsciiStep(s: seq<Byte>, i: nat)
    requires i < |s|
    ensures s[i] < 0x80 ==> Decode(s, i) == (s[i] as int, i + 1)
  {
  }

  // ----- the scan -----

  /** Some code point from position i on lies above the bound. */
  ghost predicate AnyAbove(s: seq<Byte>, i: nat, bound: nat)
    decreases |s| - i
  {
    i < |s| && (Decode(s, i).0 > bound || AnyAbove(s, Decode(s, i).1, bound))
  }

  /** Some byte sequence from position i on is in error: a byte above ASCII that stands alone. */
  ghost predicate AnyError(s: seq<Byte>, i: nat)
    decreases |s| - i
  {
    i < |s| && ((s[i] >= 0x80 && Decode(s, i).1 == i + 1) || AnyError(s, Decode(s, i).1))
  }

  lemma {:induction false} AsciiOnly(s: seq<Byte>, i: nat)
    requires i <= |s| && forall k :: 0 <= k < |s| ==> s[k] < 0x80
    ensures |DecodeFrom(s, i)| == |s| - i && !AnyAbove(s, i, 0xFF) && !AnyAbove(s, i, 0xFFFF) && !AnyError(s, i)
    decreases |s| - i
  {
    if i < |s| {
      AsciiStep(s, i);
      AsciiOnly(s, i + 1);
    }
  }

  /** utf8_scan: the number of units the decoder will produce, and what kinds of code points there are. */
  method Scan(buf: seq<Byte>) returns (len: nat, nonAscii: bool, has16Bit: bool, hasNonBmp: bool, hasErrors: bool)
    ensures len == |DecodeFrom(buf, 0)|
    ensures nonAscii <==> exists k :: 0 <= k < |buf| && buf[k] >= 0x80
    ensures has16Bit <==> AnyAbove(buf, 0, 0xFF)
    ensures hasNonBmp <==> AnyAbove(buf, 0, 0xFFFF)
    ensures hasErrors <==> AnyError(buf, 0)
  {
    hide Decode, DecodeLen, Units;
    nonAscii, has16Bit, hasNonBmp, hasErrors := false, false, false, false;
    for i := 0 to |buf|
      invariant nonAscii <==> exists k :: 0 <= k < i && buf[k] >= 0x80
    {
      nonAscii := nonAscii || buf[i] >= 0x80;
    }
    if !nonAscii {
      AsciiOnly(buf, 0);
      return |buf|, nonAscii, has16Bit, hasNonBmp, hasErrors;
    }
    len := 0;
    var p := 0;
    while p < |buf|
      invariant p <= |buf| && len + |DecodeFrom(buf, p)| == |DecodeFrom(buf, 0)|
      invariant has16Bit || AnyAbove(buf, p, 0xFF) <==> AnyAbove(buf, 0, 0xFF)
      invariant hasNonBmp || AnyAbove(buf, p, 0xFFFF) <==> AnyAbove(buf, 0, 0xFFFF)
      invariant hasErrors || AnyError(buf, p) <==> AnyError(buf, 0)
    {
      DecodeLenIsDecode(buf, p);
      AsciiStep(buf, p);
      UnitCount(buf, p);
      len := len + 1;
      if buf[p] >= 0x80 {
        var (c, next) := DecodeLen(buf, p);
        if next == p + 1 {
          hasErrors := true;
        }
        p := next;
        if c > 0xFF {
          has16Bit := true;
          if c > 0xFFFF {
            len := len + 1;
            hasNonBmp := true;
          }
        }
      } else {
        p := p + 1;
      }
    }
  }

  lemma UnitCount(s: seq<Byte>, i: nat)
    requires i < |s|
    ensures var (c, next) := Decode(s, i);
            |DecodeFrom(s, i)| == (if c > 0xFFFF then 2 else 1) + |DecodeFrom(s, next)|
  {
    hide Decode;
  }

  /** The two-byte form as utf8_decode_buf8 computes it. */
  function Joined(c: int, b: int): int {
    c * 64 + b - (0xC0 * 64 + 0x80)
  }

  /** Where no code point lies above 0x7FF, utf8_decode_buf8's simple arithmetic is decoding. */
  lemma NarrowStep(s: seq<Byte>, i: nat)
    requires i < |s| && !AnyAbove(s, i, 0x7FF)
    ensures var (c, next) := Decode(s, i);
            && c <= 0x7FF && !AnyAbove(s, next, 0x7FF)
            && (s[i] < 0xC0 ==> c == s[i] && next == i + 1)
            && (s[i] >= 0xC0 ==> next == i + 2 && next <= |s| && c == Joined(s[i], s[i + 1]))
  {
  }

  /** The units as bytes. */
  function Narrowed(units: seq<Unit>): (bytes: seq<Unit>)
    ensures |bytes| == |units| && forall k :: 0 <= k < |units| ==> bytes[k] == units[k] % 256
  {
    seq(|units|, k requires 0 <= k < |units| => units[k] % 256)
  }

  lemma {:induction false} NarrowedIsSame(s: seq<Byte>, i: nat)
    requires i <= |s| && !AnyAbove(s, i, 0xFF)
    ensures Narrowed(DecodeFrom(s, i)) == DecodeFrom(s, i) && forall k :: 0 <= k < |DecodeFrom(s, i)| ==> DecodeFrom(s, i)[k] < 256
    decreases |s| - i
  {
    hide Decode;
    if i < |s| {
      NarrowedIsSame(s, Decode(s, i).1);
      assert DecodeFrom(s, i) == Units(Decode(s, i).0) + DecodeFrom(s, Decode(s, i).1);
    }
  }

  /** utf8_decode_buf8 on a correctly encoded text of code points below 0x800: as many bytes as utf8_decode_buf16
      has units, each the unit's low byte, and a terminating NUL. Where the scan has found no 16-bit code point
      they are the same units. */
  method DecodeBuf8(dest: array<Unit>, destLen: nat, src: seq<Byte>) returns (i: nat)
    requires destLen <= dest.Length && !AnyAbove(src, 0, 0x7FF)
    modifies dest
    ensures var bytes := Narrowed(DecodeFrom(src, 0));
            && i == |bytes|
            && (i < destLen ==> dest[..i] == bytes && dest[i] == 0)
            && (i >= destLen > 0 ==> dest[..destLen - 1] == bytes[..destLen - 1] && dest[destLen - 1] == 0)
            && dest[destLen..] == old(dest[destLen..])
    ensures !AnyAbove(src, 0, 0xFF) ==> Narrowed(DecodeFrom(src, 0)) == DecodeFrom(src, 0)
  {
    hide Decode, Stored, Joined, AnyAbove;
    ghost var all, before := DecodeFrom(src, 0), dest[..];
    ghost var units: seq<Unit> := [];
    var p := 0;
    i := 0;
    assert Narrowed([]) == [];
    NothingStored(before, destLen);
    while p < |src|
      invariant p <= |src| && i == |units| && !AnyAbove(src, p, 0x7FF)
      invariant all == units + DecodeFrom(src, p)
      invariant Stored(dest[..], before, Narrowed(units), destLen)
    {
      DecodeStep(src, p, units, all);
      NarrowStep(src, p);
      var c: int := src[p];
      p := p + 1;
      if c >= 0xC0 {
        c := Joined(c, src[p]);
        p := p + 1;
      }
      StoreOne(dest[..], before, Narrowed(units), destLen, c % 256);
      assert Narrowed(units + [c as Unit]) == Narrowed(units) + [c % 256];
      if i < destLen {
        dest[i] := c % 256;
      }
      i := i + 1;
      units := units + [c as Unit];
    }
    assert all == units;
    StoredParts(dest[..], before, Narrowed(units), destLen);
    Seal(dest, destLen, i);
    if !AnyAbove(src, 0, 0xFF) {
      NarrowedIsSame(src, 0);
    }
  }

  /** The NUL of utf8_decode_buf8, which replaces the last unit if there is no room behind it. */
  method Seal(dest: array<Unit>, destLen: nat, i: nat)
    requires destLen <= dest.Length
    modifies dest
    ensures dest[destLen..] == old(dest[destLen..])
    ensures i < destLen ==> dest[..i] == old(dest[..i]) && dest[i] == 0
    ensures i >= destLen > 0 ==> dest[..destLen - 1] == old(dest[..destLen])[..destLen - 1] && dest[destLen - 1] == 0
  {
    if i < destLen {
      dest[i] := 0;
    } else if destLen > 0 {
      dest[destLen - 1] := 0;
    }
  }

  lemma StoredParts(dest: seq<Unit>, before: seq<Unit>, units: seq<Unit>, destLen: nat)
    requires Stored(dest, before, units, destLen)
    ensures dest[..Min(|units|, destLen)] == units[..Min(|units|, destLen)]
    ensures dest[destLen..] == before[destLen..]
  {
    assert dest[destLen..] == dest[Min(|units|, destLen)..][destLen - Min(|units|, destLen)..];
  }
}
