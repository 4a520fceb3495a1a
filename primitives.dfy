/** Fixed-width integers, C# `char`s and strings, and the little-endian
    two's-complement byte layouts every binary format of the converter uses. */
module Primitives {

  type byte = x: int | 0 <= x < 0x100
  /** A C# `char`: one UTF-16 code unit (surrogates included). */
  type Char16 = x: int | 0 <= x < 0x1_0000
  /** A C# `string`. */
  type Str = seq<Char16>

  type int16 = x: int | -0x8000 <= x < 0x8000
  type uint16 = x: int | 0 <= x < 0x1_0000
  type int32 = x: int | -0x8000_0000 <= x < 0x8000_0000
  type uint32 = x: int | 0 <= x < 0x1_0000_0000

  const NUL: Char16 := 0

  /** The 32-bit pattern of an unchecked C# `int` or `uint` expression. */
  function Bits32(x: int): uint32 { x % 0x1_0000_0000 }

  /** The value of an unchecked C# `int` expression (wraps around). */
  function Wrap32(x: int): int32
  {
    var u := Bits32(x);
    if u >= 0x8000_0000 then u - 0x1_0000_0000 else u
  }

  /** A value in range is its own wrap. */
  lemma WrapInRange(x: int)
    requires -0x8000_0000 <= x < 0x8000_0000
    ensures Wrap32(x) == x
  {
  }

  /** Wrapping does not change the 32-bit pattern. */
  lemma WrapBits32(x: int)
    ensures Bits32(Wrap32(x)) == Bits32(x)
  {
  }

  /** `(short)n` of a 16-bit pattern. */
  function Signed16(u: uint16): (r: int16)
    ensures r % 0x1_0000 == u
  {
    if u >= 0x8000 then u - 0x1_0000 else u
  }

  /** `(byte)ch`: the low byte of a char. */
  function LowByte(c: Char16): byte { c % 0x100 }

  /** `(byte)((ch >> 8) & 0xff)`: the high byte of a char. */
  function HighByte(c: Char16): byte { c / 0x100 }

  // ---------------------------------------------------------------------
  // Little-endian layouts: what WriteInt/WriteUInt/WriteShort/WriteUShort
  // emit (value & 0xff, (value >> 8) & 0xff, ...) and what the matching
  // reads reassemble (n1 | (n2 << 8) | ...).

  function UInt32Bytes(u: uint32): (b: seq<byte>)
    ensures |b| == 4
  {
    var q1 := u / 0x100;
    var q2 := q1 / 0x100;
    [u % 0x100, q1 % 0x100, q2 % 0x100, q2 / 0x100]
  }

  /** The bytes `WriteInt` emits for the (possibly out of range) value x. */
  function Int32Bytes(x: int): (b: seq<byte>)
    ensures |b| == 4
  {
    UInt32Bytes(Bits32(x))
  }

  /** Wrapping first does not change the bytes written. */
  lemma Int32BytesWrap(x: int)
    ensures Int32Bytes(Wrap32(x)) == Int32Bytes(x)
  {
    WrapBits32(x);
  }

  function UInt16Bytes(u: uint16): (b: seq<byte>)
    ensures |b| == 2
  {
    [u % 0x100, u / 0x100]
  }

  /** The bytes `WriteShort`/`WriteUShort` emit for the value x cast to 16 bits. */
  function Int16Bytes(x: int): (b: seq<byte>)
    ensures |b| == 2
  {
    UInt16Bytes(x % 0x1_0000)
  }

  function DecodeUInt32(b0: byte, b1: byte, b2: byte, b3: byte): uint32
  {
    b0 + 0x100 * (b1 + 0x100 * (b2 + 0x100 * b3))
  }

  /** `n1 | (n2 << 8) | (n3 << 16) | (n4 << 24)` as a C# `int`. */
  function DecodeInt32(b0: byte, b1: byte, b2: byte, b3: byte): int32
  {
    Wrap32(DecodeUInt32(b0, b1, b2, b3))
  }

  function DecodeUInt16(b0: byte, b1: byte): uint16 { b0 + 0x100 * b1 }

  function DecodeInt16(b0: byte, b1: byte): int16 { Signed16(DecodeUInt16(b0, b1)) }

  lemma UInt32BytesRoundTrip(u: uint32)
    ensures var b := UInt32Bytes(u); DecodeUInt32(b[0], b[1], b[2], b[3]) == u
  {
  }

  lemma DecodeUInt32RoundTrip(b0: byte, b1: byte, b2: byte, b3: byte)
    ensures UInt32Bytes(DecodeUInt32(b0, b1, b2, b3)) == [b0, b1, b2, b3]
  {
    var u := DecodeUInt32(b0, b1, b2, b3);
    var q1 := b1 + 0x100 * (b2 + 0x100 * b3);
    assert u / 0x100 == q1 && u % 0x100 == b0;
    assert q1 / 0x100 == b2 + 0x100 * b3 && q1 % 0x100 == b1;
  }

  /** ReadInt inverts WriteInt on every `int`. */
  lemma Int32RoundTrip(v: int32)
    ensures var b := Int32Bytes(v); DecodeInt32(b[0], b[1], b[2], b[3]) == v
  {
    UInt32BytesRoundTrip(Bits32(v));
    WrapOfBits(v);
  }

  lemma WrapOfBits(v: int32)
    ensures Wrap32(Bits32(v)) == v
  {
    if v < 0 {
      assert Bits32(v) == v + 0x1_0000_0000;
    }
  }

  /** ReadUInt inverts WriteUInt on every `uint`. */
  lemma UInt32RoundTrip(u: uint32)
    ensures var b := Int32Bytes(u); DecodeUInt32(b[0], b[1], b[2], b[3]) == u
  {
    assert Bits32(u) == u;
    UInt32BytesRoundTrip(u);
  }

  /** ReadShort inverts WriteShort and ReadUShort inverts WriteUShort. */
  lemma Int16RoundTrip(v: int16, u: uint16)
    ensures var b := Int16Bytes(v); DecodeInt16(b[0], b[1]) == v
    ensures var c := Int16Bytes(u); DecodeUInt16(c[0], c[1]) == u
  {
  }

  // ---------------------------------------------------------------------
  // Case folding. `String.ToLower` is culture-sensitive; the model folds
  // the ASCII letters only.

  function LowerChar(c: Char16): (r: Char16)
    ensures r == c || ('A' as int <= c <= 'Z' as int && r == c + 32)
  {
    if 'A' as int <= c <= 'Z' as int then c + 32 else c
  }

  function ToLower(s: Str): (r: Str)
    ensures |r| == |s|
    ensures forall i :: 0 <= i < |s| ==> r[i] == LowerChar(s[i])
  {
    if s == [] then [] else [LowerChar(s[0])] + ToLower(s[1..])
  }

  lemma {:induction false} ToLowerIdempotent(s: Str)
    ensures ToLower(ToLower(s)) == ToLower(s)
  {
    var once := ToLower(s);
    assert forall i :: 0 <= i < |s| ==> ToLower(once)[i] == once[i];
  }

  /** A Dafny string literal as a C# string (every literal used here is ASCII). */
  function S(s: string): (r: Str)
    requires forall i :: 0 <= i < |s| ==> s[i] as int < 0x1_0000
    ensures |r| == |s| && forall i :: 0 <= i < |s| ==> r[i] == s[i] as int
  {
    if s == [] then [] else [s[0] as int as Char16] + S(s[1..])
  }
}
