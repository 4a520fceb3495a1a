/** UTF-8 for the older ME3 string layout, over UTF-16 code units: the
    part of `Encoding.UTF8` that covers the Basic Multilingual Plane. Chars
    outside the surrogate range are encoded in one, two or three bytes and
    decoded back; this coder writes any surrogate code unit as U+FFFD and
    reads four-byte sequences and malformed input byte by byte, one U+FFFD
    per byte. .NET instead pairs surrogates into four-byte sequences and
    replaces a truncated sequence by a single U+FFFD, so the two agree
    only on strings without surrogates and on well-formed one- to
    three-byte input. */
module Utf8 {
  import opened Primitives

  const Replacement: Char16 := 0xFFFD

  predicate IsSurrogate(c: int) { 0xD800 <= c < 0xE000 }

  predicate NoSurrogates(s: Str)
  {
    forall i :: 0 <= i < |s| ==> !IsSurrogate(s[i])
  }

  /** A continuation byte 10xxxxxx. */
  predicate Cont(b: byte) { 0x80 <= b < 0xC0 }

  /** The bytes of one code unit. */
  function EncodeChar(c: Char16): (b: seq<byte>)
    ensures 1 <= |b| <= 3
    ensures |b| == 1 <==> c < 0x80
    ensures b[0] < 0x80 || 0xC2 <= b[0] < 0xF0
    ensures forall k :: 1 <= k < |b| ==> Cont(b[k])
  {
    if c < 0x80 then [c]
    else if c < 0x800 then [0xC0 + c / 0x40, 0x80 + c % 0x40]
    else if IsSurrogate(c) then [0xEF, 0xBF, 0xBD]
    else [0xE0 + c / 0x1000, 0x80 + (c / 0x40) % 0x40, 0x80 + c % 0x40]
  }

  /** `Encoding.UTF8.GetBytes`, for strings without surrogates. */
  function Encode(s: Str): (b: seq<byte>)
    ensures |s| <= |b| <= 3 * |s|
  {
    if s == [] then [] else EncodeChar(s[0]) + Encode(s[1..])
  }

  /** The char at the front of b and the number of bytes it takes. */
  function DecodeStep(b: seq<byte>): (r: (Char16, nat))
    requires |b| > 0
    ensures 1 <= r.1 <= |b|
    ensures r.1 == 1 ==> r.0 == b[0] || r.0 == Replacement
  {
    var b0 := b[0] as int;
    if b0 < 0x80 then (b0, 1)
    else if 0xC2 <= b0 < 0xE0 && 2 <= |b| && Cont(b[1]) then
      (Join2(b0 - 0xC0, b[1] as int - 0x80), 2)
    else if 0xE0 <= b0 < 0xF0 && 3 <= |b| && Cont(b[1]) && Cont(b[2]) then
      var c := Join3(b0 - 0xE0, b[1] as int - 0x80, b[2] as int - 0x80);
      if c < 0x800 || IsSurrogate(c) then (Replacement, 1) else (c, 3)
    else (Replacement, 1)
  }

  /** The payload of a two-byte sequence: five bits, then six. */
  function Join2(hi: int, lo: int): (c: Char16)
    requires 0 <= hi < 0x20 && 0 <= lo < 0x40
  {
    hi * 0x40 + lo
  }

  /** The payload of a three-byte sequence: four bits, then six, then six. */
  function Join3(hi: int, mid: int, lo: int): (c: Char16)
    requires 0 <= hi < 0x10 && 0 <= mid < 0x40 && 0 <= lo < 0x40
  {
    hi * 0x1000 + mid * 0x40 + lo
  }

  /** `Encoding.UTF8.GetString`, for well-formed one- to three-byte input. */
  function Decode(b: seq<byte>): (s: Str)
    ensures |s| <= |b|
    decreases |b|
  {
    if b == [] then [] else
      var (c, n) := DecodeStep(b);
      [c] + Decode(b[n..])
  }

  lemma Split2(c: Char16)
    requires c < 0x800
    ensures Join2(c / 0x40, c % 0x40) == c
  {
  }

  lemma Split3(c: Char16)
    ensures Join3(c / 0x1000, (c / 0x40) % 0x40, c % 0x40) == c
  {
    var q := c / 0x40;
    assert c == q * 0x40 + c % 0x40;
    assert q == (q / 0x40) * 0x40 + q % 0x40;
    assert q / 0x40 == c / 0x1000;
  }

  /** Each char's bytes decode back to the char. */
  lemma DecodeEncodedChar(c: Char16, rest: seq<byte>)
    requires !IsSurrogate(c)
    ensures DecodeStep(EncodeChar(c) + rest) == (c, |EncodeChar(c)|)
  {
    var b := EncodeChar(c) + rest;
    if c < 0x80 {
    } else if c < 0x800 {
      assert b[0] == 0xC0 + c / 0x40 && b[1] == 0x80 + c % 0x40;
      Split2(c);
    } else {
      assert b[0] == 0xE0 + c / 0x1000;
      assert b[1] == 0x80 + (c / 0x40) % 0x40;
      assert b[2] == 0x80 + c % 0x40;
      Split3(c);
    }
  }

  /** Decoding inverts encoding on every string without surrogates. */
  lemma {:induction false} DecodeEncode(s: Str)
    requires NoSurrogates(s)
    ensures Decode(Encode(s)) == s
  {
    if s != [] {
      var e, rest := EncodeChar(s[0]), Encode(s[1..]);
      assert Encode(s) == e + rest;
      DecodeEncodedChar(s[0], rest);
      assert (e + rest)[|e|..] == rest;
      DecodeEncode(s[1..]);
    }
  }

  /** ASCII text is its own encoding, one byte per char. */
  lemma {:induction false} EncodeAscii(s: Str)
    requires forall i :: 0 <= i < |s| ==> s[i] < 0x80
    ensures |Encode(s)| == |s|
    ensures forall i :: 0 <= i < |s| ==> Encode(s)[i] == s[i]
  {
    if s != [] {
      EncodeAscii(s[1..]);
    }
  }
}
