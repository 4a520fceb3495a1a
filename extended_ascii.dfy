/** ExtendedAsciiEncoding: one byte per char. A char becomes its low byte, a
    byte becomes the char with that code, so the chars 0..255 and the bytes
    map onto each other one to one. */
module ExtendedAscii {
  import opened Primitives

  /** The bytes GetBytes writes for a run of chars. */
  function Bytes(s: Str): (r: seq<byte>)
    ensures |r| == |s| && forall i :: 0 <= i < |s| ==> r[i] == LowByte(s[i])
  {
    if s == [] then [] else [LowByte(s[0])] + Bytes(s[1..])
  }

  /** The chars GetChars writes for a run of bytes. */
  function Chars(b: seq<byte>): (r: Str)
    ensures |r| == |b| && forall i :: 0 <= i < |b| ==> r[i] == b[i]
  {
    if b == [] then [] else [b[0] as Char16] + Chars(b[1..])
  }

  /** `GetByteCount`: the count it is given. */
  function GetByteCount(chars: Str, index: int, count: int): int
  {
    count
  }

  /** `GetCharCount`: the count it is given. */
  function GetCharCount(bytes: seq<byte>, index: int, count: int): int
  {
    count
  }

  /** `GetMaxByteCount`: one byte per char. */
  function GetMaxByteCount(charCount: int): int
  {
    charCount
  }

  /** `GetMaxCharCount`: one char per byte. */
  function GetMaxCharCount(byteCount: int): int
  {
    byteCount
  }

  /** The counts the encoding reports are the lengths GetBytes and GetChars
      produce. */
  lemma Counts(s: Str, b: seq<byte>)
    ensures |Bytes(s)| == GetByteCount(s, 0, |s|) == GetMaxByteCount(|s|)
    ensures |Chars(b)| == GetCharCount(b, 0, |b|) == GetMaxCharCount(|b|)
  {
  }

  /** Decoding the bytes of a string gives it back exactly when every char
      is at most 0xFF. */
  lemma {:induction false} CharsOfBytes(s: Str)
    ensures Chars(Bytes(s)) == s <==> forall i :: 0 <= i < |s| ==> s[i] <= 0xFF
  {
    if forall i :: 0 <= i < |s| ==> s[i] <= 0xFF {
      forall i | 0 <= i < |s|
        ensures Chars(Bytes(s))[i] == s[i]
      {
      }
    } else {
      var i :| 0 <= i < |s| && s[i] > 0xFF;
      assert Chars(Bytes(s))[i] != s[i];
    }
  }

  /** Encoding the chars of any bytes gives the bytes back. */
  lemma {:induction false} BytesOfChars(b: seq<byte>)
    ensures Bytes(Chars(b)) == b
  {
    forall i | 0 <= i < |b|
      ensures Bytes(Chars(b))[i] == b[i]
    {
    }
  }

  /** `GetBytes`: the low byte of chars[charIndex + i] into
      bytes[byteIndex + i] for each i below charCount; nothing else changes.
      The code checks no index, so in-range indices are the caller's duty. */
  method GetBytes(chars: array<Char16>, charIndex: int, charCount: int, bytes: array<byte>, byteIndex: int) returns (n: int)
    requires charCount > 0 ==>
      0 <= charIndex && charIndex + charCount <= chars.Length && 0 <= byteIndex && byteIndex + charCount <= bytes.Length
    modifies bytes
    ensures n == GetByteCount(chars[..], charIndex, charCount)
    ensures charCount <= 0 ==> bytes[..] == old(bytes[..])
    ensures charCount > 0 ==>
      bytes[..] == old(bytes[..byteIndex]) + Bytes(chars[charIndex..charIndex + charCount]) + old(bytes[byteIndex + charCount..])
  {
    var i := 0;
    while i < charCount
      invariant charCount > 0 ==> 0 <= i <= charCount
      invariant charCount <= 0 ==> i == 0
      invariant forall k :: 0 <= k < bytes.Length ==>
        bytes[k] == if byteIndex <= k < byteIndex + i then LowByte(chars[k - byteIndex + charIndex]) else old(bytes[k])
    {
      bytes[i + byteIndex] := LowByte(chars[i + charIndex]);
      i := i + 1;
    }
    if charCount > 0 {
      var written := Bytes(chars[charIndex..charIndex + charCount]);
      assert bytes[..] == old(bytes[..byteIndex]) + written + old(bytes[byteIndex + charCount..]) by {
        forall k | 0 <= k < bytes.Length
          ensures bytes[k] == (old(bytes[..byteIndex]) + written + old(bytes[byteIndex + charCount..]))[k]
        {
        }
      }
    } else {
      assert bytes[..] == old(bytes[..]);
    }
    n := charCount;
  }

  /** `GetChars`: the char with code bytes[byteIndex + i] into
      chars[charIndex + i] for each i below byteCount; nothing else changes.
      The code checks no index, so in-range indices are the caller's duty. */
  method GetChars(bytes: array<byte>, byteIndex: int, byteCount: int, chars: array<Char16>, charIndex: int) returns (n: int)
    requires byteCount > 0 ==>
      0 <= byteIndex && byteIndex + byteCount <= bytes.Length && 0 <= charIndex && charIndex + byteCount <= chars.Length
    modifies chars
    ensures n == GetCharCount(bytes[..], byteIndex, byteCount)
    ensures byteCount <= 0 ==> chars[..] == old(chars[..])
    ensures byteCount > 0 ==>
      chars[..] == old(chars[..charIndex]) + Chars(bytes[byteIndex..byteIndex + byteCount]) + old(chars[charIndex + byteCount..])
  {
    var i := 0;
    while i < byteCount
      invariant byteCount > 0 ==> 0 <= i <= byteCount
      invariant byteCount <= 0 ==> i == 0
      invariant forall k :: 0 <= k < chars.Length ==>
        chars[k] == if charIndex <= k < charIndex + i then bytes[k - charIndex + byteIndex] else old(chars[k])
    {
      chars[i + charIndex] := bytes[i + byteIndex];
      i := i + 1;
    }
    if byteCount > 0 {
      var read := Chars(bytes[byteIndex..byteIndex + byteCount]);
      assert chars[..] == old(chars[..charIndex]) + read + old(chars[charIndex + byteCount..]) by {
        forall k | 0 <= k < chars.Length
          ensures chars[k] == (old(chars[..charIndex]) + read + old(chars[charIndex + byteCount..]))[k]
        {
        }
      }
    } else {
      assert chars[..] == old(chars[..]);
    }
    n := byteCount;
  }
}
