/** CoalescedFileStream: the older converters' cursor. Its integer reads and
    writes and its ME1/2 LE strings have the same layouts as CoalFileStream's;
    its ME3 LE strings are a signed 16-bit byte count followed by UTF-8. */
module CoalescedStream {
  import opened Wrappers
  import opened Primitives
  import opened Formats
  import opened ByteCodec
  import opened StringCodec
  import opened Utf8
  import opened CoalStream

  // ---------------------------------------------------------------------
  // The ME3 LE string layout.

  /** The bytes WriteString emits for the ME3 LE layout, or the
      ArgumentException it raises for more than 32,767 bytes of UTF-8. */
  function EncodeME3LE(s: Str): Result<seq<byte>>
  {
    var b := Encode(s);
    if |b| == 0 then Ok(Int16Bytes(0))
    else if |b| > 0x7FFF then Err(ArgumentTooLong)
    else Ok(Int16Bytes(|b|) + b)
  }

  /** ReadString for ME3 LE: a negative count is an error; otherwise that
      many bytes, decoded as UTF-8. */
  function ReadME3LEAt(d: seq<byte>, p: nat): Result<(Str, nat)>
  {
    var prefix :- ReadInt16At(d, p);
    if prefix.0 < 0 then Err(CoalescedRead(NegativePrefix(prefix.0)))
    else
      var bytes :- ReadBytesAt(d, prefix.1, prefix.0);
      Ok((Decode(bytes.0), bytes.1))
  }

  lemma ME3LEPrefix(pre: seq<byte>, h: seq<byte>, b: seq<byte>, rest: seq<byte>, n: int16)
    requires h == Int16Bytes(n)
    ensures ReadInt16At(pre + (h + b) + rest, |pre|) == Ok((n, |pre| + 2))
  {
    assert pre + (h + b) + rest == pre + h + (b + rest);
    Read16Written(pre, n, 0, b + rest);
  }

  lemma ME3LEBytes(pre: seq<byte>, h: seq<byte>, b: seq<byte>, rest: seq<byte>)
    requires |h| == 2
    ensures ReadBytesAt(pre + (h + b) + rest, |pre| + 2, |b|) == Ok((b, |pre| + 2 + |b|))
  {
    Parts2(h, b);
    Middle(pre, h + b, rest, 2, 2 + |b|);
  }

  /** The layout reads back every string without surrogates whose UTF-8 form
      fits, and refuses exactly the ones whose UTF-8 form does not. */
  lemma ME3LERoundTrip(pre: seq<byte>, s: Str, rest: seq<byte>)
    requires NoSurrogates(s)
    ensures EncodeME3LE(s).Err? <==> |Encode(s)| > 0x7FFF
    ensures EncodeME3LE(s).Ok? ==>
      var e := EncodeME3LE(s).value;
      ReadME3LEAt(pre + e + rest, |pre|) == Ok((s, |pre| + |e|))
  {
    var b := Encode(s);
    if |b| == 0 {
      DecodeEncode(s);
      Read16Written(pre, 0, 0, rest);
    } else if |b| <= 0x7FFF {
      ME3LENonEmpty(pre, s, rest);
    }
  }

  lemma ME3LENonEmpty(pre: seq<byte>, s: Str, rest: seq<byte>)
    requires NoSurrogates(s) && 0 < |Encode(s)| <= 0x7FFF
    ensures EncodeME3LE(s) == Ok(Int16Bytes(|Encode(s)|) + Encode(s))
    ensures ReadME3LEAt(pre + EncodeME3LE(s).value + rest, |pre|) == Ok((s, |pre| + 2 + |Encode(s)|))
  {
    DecodeEncode(s);
    ME3LEReadBack(pre, Encode(s), EncodeME3LE(s).value, rest);
  }

  /** A non-empty count and its bytes read back as the bytes' decoding. */
  lemma ME3LEReadBack(pre: seq<byte>, b: seq<byte>, e: seq<byte>, rest: seq<byte>)
    requires 0 < |b| <= 0x7FFF && e == Int16Bytes(|b|) + b
    ensures ReadME3LEAt(pre + e + rest, |pre|) == Ok((Decode(b), |pre| + 2 + |b|))
  {
    var n: int16 := |b|;
    var h := Int16Bytes(n);
    ME3LEPrefix(pre, h, b, rest, n);
    ME3LEBytes(pre, h, b, rest);
  }

  /** ReadString for each format; the format is never Unknown once the
      stream exists, but the branch is there. */
  function ReadCoalescedStringAt(format: CoalescedFormat, d: seq<byte>, p: nat): Result<(Str, nat)>
  {
    match format
    case CoalescedME12LE => ReadME12At(d, p)
    case CoalescedME3LE => ReadME3LEAt(d, p)
    case CoalescedUnknown => Err(UnknownCoalescedFormat)
  }

  /** WriteString for each format. */
  function EncodeCoalescedString(format: CoalescedFormat, s: Str): Result<seq<byte>>
  {
    match format
    case CoalescedME12LE => Ok(EncodeME12(s))
    case CoalescedME3LE => EncodeME3LE(s)
    case CoalescedUnknown => Err(UnknownCoalescedFormat)
  }

  /** Both layouts read back what they wrote, within their limits. */
  lemma CoalescedStringRoundTrip(format: CoalescedFormat, pre: seq<byte>, s: Str, rest: seq<byte>)
    requires NoNul(s) && NoSurrogates(s) && |s| < 0x7FFF_FFFF
    ensures format == CoalescedME12LE ==> EncodeCoalescedString(format, s).Ok?
    ensures format == CoalescedUnknown ==> EncodeCoalescedString(format, s) == Err(UnknownCoalescedFormat)
    ensures EncodeCoalescedString(format, s).Ok? ==>
      var e := EncodeCoalescedString(format, s).value;
      ReadCoalescedStringAt(format, pre + e + rest, |pre|) == Ok((s, |pre| + |e|))
  {
    match format
    case CoalescedME12LE => ME12RoundTrip(pre, s, rest);
    case CoalescedME3LE => ME3LERoundTrip(pre, s, rest);
    case CoalescedUnknown =>
  }

  class CoalescedFileStream {
    var data: seq<byte>
    var pos: nat
    const format: CoalescedFormat

    ghost predicate Valid()
      reads this
    {
      pos <= |data|
    }

    constructor (contents: seq<byte>, format: CoalescedFormat)
      ensures Valid() && data == contents && pos == 0 && this.format == format
    {
      data := contents;
      pos := 0;
      this.format := format;
    }

    /** The public constructor: the Unknown format raises
        ArgumentOutOfRangeException. */
    static method Open(contents: seq<byte>, format: CoalescedFormat) returns (r: Result<CoalescedFileStream>)
      ensures r.Err? <==> format == CoalescedUnknown
      ensures r.Err? ==> r.error == ArgumentOutOfRange
      ensures r.Ok? ==> fresh(r.value) && r.value.Valid()
      ensures r.Ok? ==> r.value.data == contents && r.value.pos == 0 && r.value.format == format
    {
      if format == CoalescedUnknown {
        return Err(ArgumentOutOfRange);
      }
      var fs := new CoalescedFileStream(contents, format);
      return Ok(fs);
    }

    method ReadByte() returns (r: Result<byte>)
      requires Valid()
      modifies this
      ensures Valid() && data == old(data)
      ensures Follows(r, pos, ReadByteAt(old(data), old(pos)))
    {
      if pos >= |data| {
        return Err(EndOfStream);
      }
      r := Ok(data[pos]);
      pos := pos + 1;
    }

    method WriteByte(b: byte)
      requires Valid()
      modifies this
      ensures Valid() && data == Splice(old(data), old(pos), [b]) && pos == old(pos) + 1
    {
      data := Splice(data, pos, [b]);
      pos := pos + 1;
    }

    method ReadInt() returns (r: Result<int32>)
      requires Valid()
      modifies this
      ensures Valid() && data == old(data)
      ensures Follows(r, pos, ReadInt32At(old(data), old(pos)))
    {
      var n1 :- ReadByte();
      var n2 :- ReadByte();
      var n3 :- ReadByte();
      var n4 :- ReadByte();
      return Ok(DecodeInt32(n1, n2, n3, n4));
    }

    method ReadUInt() returns (r: Result<uint32>)
      requires Valid()
      modifies this
      ensures Valid() && data == old(data)
      ensures Follows(r, pos, ReadUInt32At(old(data), old(pos)))
    {
      var n1 :- ReadByte();
      var n2 :- ReadByte();
      var n3 :- ReadByte();
      var n4 :- ReadByte();
      return Ok(DecodeUInt32(n1, n2, n3, n4));
    }

    method ReadShort() returns (r: Result<int16>)
      requires Valid()
      modifies this
      ensures Valid() && data == old(data)
      ensures Follows(r, pos, ReadInt16At(old(data), old(pos)))
    {
      var n1 :- ReadByte();
      var n2 :- ReadByte();
      return Ok(DecodeInt16(n1, n2));
    }

    method ReadUShort() returns (r: Result<uint16>)
      requires Valid()
      modifies this
      ensures Valid() && data == old(data)
      ensures Follows(r, pos, ReadUInt16At(old(data), old(pos)))
    {
      var n1 :- ReadByte();
      var n2 :- ReadByte();
      return Ok(DecodeUInt16(n1, n2));
    }

    /** WriteInt and WriteUInt: the four bytes of the 32-bit pattern. */
    method WriteWord(u: uint32)
      requires Valid()
      modifies this
      ensures Valid() && data == Splice(old(data), old(pos), UInt32Bytes(u)) && pos == old(pos) + 4
    {
      ghost var d0, p0 := data, pos;
      var b := UInt32Bytes(u);
      WriteByte(b[0]);
      WriteByte(b[1]);
      WriteByte(b[2]);
      WriteByte(b[3]);
      ByteByByte(d0, p0, b);
    }

    method WriteInt(value: int32)
      requires Valid()
      modifies this
      ensures Valid() && data == Splice(old(data), old(pos), Int32Bytes(value)) && pos == old(pos) + 4
    {
      WriteWord(Bits32(value));
    }

    method WriteUInt(value: uint32)
      requires Valid()
      modifies this
      ensures Valid() && data == Splice(old(data), old(pos), UInt32Bytes(value)) && pos == old(pos) + 4
    {
      WriteWord(value);
    }

    /** WriteShort and WriteUShort: the two bytes of the 16-bit pattern. */
    method WriteHalf(u: uint16)
      requires Valid()
      modifies this
      ensures Valid() && data == Splice(old(data), old(pos), UInt16Bytes(u)) && pos == old(pos) + 2
    {
      ghost var d0, p0 := data, pos;
      var b := UInt16Bytes(u);
      WriteByte(b[0]);
      WriteByte(b[1]);
      SpliceTwice(d0, p0, [b[0]], [b[1]]);
    }

    method WriteShort(value: int16)
      requires Valid()
      modifies this
      ensures Valid() && data == Splice(old(data), old(pos), Int16Bytes(value)) && pos == old(pos) + 2
    {
      WriteHalf(value % 0x1_0000);
    }

    method WriteUShort(value: uint16)
      requires Valid()
      modifies this
      ensures Valid() && data == Splice(old(data), old(pos), UInt16Bytes(value)) && pos == old(pos) + 2
    {
      WriteHalf(value);
    }

    /** `Stream.Read(buf)`; a short read raises EndOfStreamException. */
    method Read(buf: array<byte>) returns (r: Result<()>)
      requires Valid()
      modifies this, buf
      ensures Valid() && data == old(data)
      ensures old(pos) + buf.Length <= |data| ==>
        r == Ok(()) && pos == old(pos) + buf.Length && buf[..] == data[old(pos)..pos]
      ensures old(pos) + buf.Length > |data| ==>
        r == Err(EndOfStream) && pos == |data| && buf[..|data| - old(pos)] == data[old(pos)..]
    {
      var p0 := pos;
      var n := if buf.Length <= |data| - p0 then buf.Length else |data| - p0;
      var i := 0;
      while i < n
        invariant 0 <= i <= n && p0 + n <= |data| && pos == p0 && data == old(data)
        invariant forall k :: 0 <= k < i ==> buf[k] == data[p0 + k]
      {
        buf[i] := data[p0 + i];
        i := i + 1;
      }
      assert buf[..n] == data[p0..p0 + n];
      pos := p0 + n;
      if n != buf.Length {
        assert p0 + n == |data|;
        return Err(EndOfStream);
      }
      assert buf[..] == buf[..n];
      return Ok(());
    }

    method ReadBytes(length: int) returns (r: Result<seq<byte>>)
      requires Valid()
      modifies this
      ensures Valid() && data == old(data)
      ensures Follows(r, pos, ReadBytesAt(old(data), old(pos), length))
    {
      if length < 0 {
        return Err(Overflow);
      }
      var buf := new byte[length];
      var done := Read(buf);
      if done.Err? {
        return Err(EndOfStream);
      }
      return Ok(buf[..]);
    }

    // -------------------------------------------------------------------
    // Strings.

    /** The ME1/2 LE result never holds a NUL, so the closing `TrimEnd('\0')`
        changes nothing. */
    method ReadString() returns (r: Result<Str>)
      requires Valid()
      modifies this
      ensures Valid() && data == old(data)
      ensures Follows(r, pos, ReadCoalescedStringAt(format, old(data), old(pos)))
      ensures r.Ok? ==> NoNul(r.value) || format == CoalescedME3LE
    {
      match format
      case CoalescedME12LE => r := ReadStringME12LE();
      case CoalescedME3LE => r := ReadStringME3LE();
      case CoalescedUnknown => r := Err(UnknownCoalescedFormat);
    }

    method ReadStringME12LE() returns (r: Result<Str>)
      requires Valid()
      modifies this
      ensures Valid() && data == old(data)
      ensures Follows(r, pos, ReadME12At(old(data), old(pos)))
    {
      ghost var spec := ReadME12At(data, pos);
      var len :- ReadInt();
      if len > 0 {
        return Err(CoalescedRead(PositivePrefix(len)));
      }
      var n: int32 := Wrap32(-(len as int));
      if n < 0 {
        return Err(ArgumentOutOfRange);
      }
      var sb: Str := [];
      var i := 0;
      PrependNothing(ReadUnits(data, pos, n));
      while i < n
        invariant Valid() && data == old(data)
        invariant 0 <= i <= n
        invariant spec == Prepend(sb, ReadUnits(data, pos, n - i))
      {
        ghost var p0 := pos;
        if pos + 2 > |data| {
          ReadUnitsShort(data, pos, n - i, sb);
        }
        var lo :- ReadByte();
        var hi :- ReadByte();
        var ch: Char16 := lo as int + 0x100 * hi as int;
        ReadUnitsStep(data, p0, n - i, sb, ch);
        if ch == NUL {
          return Ok(sb);
        }
        sb := sb + [ch];
        i := i + 1;
      }
      ReadersDone(data, pos, sb);
      return Ok(sb);
    }

    /** A signed 16-bit count, that many bytes into a fresh array, then the
        UTF-8 decoding of the array. */
    method ReadStringME3LE() returns (r: Result<Str>)
      requires Valid()
      modifies this
      ensures Valid() && data == old(data)
      ensures Follows(r, pos, ReadME3LEAt(old(data), old(pos)))
    {
      var len :- ReadShort();
      if len < 0 {
        return Err(CoalescedRead(NegativePrefix(len)));
      }
      ghost var start := pos;
      var bytes := new byte[len];
      var i := 0;
      while i < len
        invariant Valid() && data == old(data)
        invariant 0 <= i <= len && pos == start + i
        invariant bytes[..i] == data[start..pos]
      {
        ghost var p := pos;
        var b :- ReadByte();
        bytes[i] := b;
        assert bytes[..i + 1] == bytes[..i] + [b];
        i := i + 1;
      }
      assert bytes[..] == bytes[..i];
      return Ok(Decode(bytes[..]));
    }

    method WriteString(str: Str) returns (r: Result<()>)
      requires Valid()
      modifies this
      ensures Valid()
      ensures EncodeCoalescedString(format, str).Ok? ==>
        var b := EncodeCoalescedString(format, str).value;
        r == Ok(()) && data == Splice(old(data), old(pos), b) && pos == old(pos) + |b|
      ensures EncodeCoalescedString(format, str).Err? ==>
        r == Err(EncodeCoalescedString(format, str).error) && data == old(data) && pos == old(pos)
    {
      match format
      case CoalescedME12LE =>
        WriteStringME12LE(str);
        r := Ok(());
      case CoalescedME3LE =>
        r := WriteStringME3LE(str);
      case CoalescedUnknown =>
        r := Err(UnknownCoalescedFormat);
    }

    method WriteUnits(str: Str)
      requires Valid()
      modifies this
      ensures Valid() && data == Splice(old(data), old(pos), Utf16Units(str))
      ensures pos == old(pos) + 2 * |str|
    {
      ghost var d0, p0 := data, pos;
      var i := 0;
      while i < |str|
        invariant Valid() && 0 <= i <= |str|
        invariant data == Splice(d0, p0, [] + Utf16Units(str[..i])) && pos == p0 + 2 * i
      {
        UnitsStep(d0, p0, [], str, i);
        WriteByte(LowByte(str[i]));
        WriteByte(HighByte(str[i]));
        i := i + 1;
      }
      assert str[..i] == str;
      assert [] + Utf16Units(str[..i]) == Utf16Units(str);
    }

    method WriteStringME12LE(str: Str)
      requires Valid()
      modifies this
      ensures Valid() && data == Splice(old(data), old(pos), EncodeME12(str))
      ensures pos == old(pos) + |EncodeME12(str)|
    {
      if |str| == 0 {
        WriteInt(0);
        return;
      }
      ghost var d0, p0 := data, pos;
      ghost var a := Int32Bytes(-(|str| + 1));
      Int32BytesWrap(-(|str| + 1));
      WriteInt(Wrap32(-(|str| + 1)));
      ghost var d1 := data;
      WriteUnits(str);
      WriteAfter(d0, p0, a, Utf16Units(str), d1, data);
      ghost var d2, b := data, a + Utf16Units(str);
      WriteByte(0);
      WriteAfter(d0, p0, b, [0], d2, data);
      ghost var d3 := data;
      WriteByte(0);
      WriteAfter(d0, p0, b + [0], [0], d3, data);
      ME12Emitted(str, a);
    }

    /** The UTF-8 bytes, refused before anything is written when there are
        more than 32,767 of them. */
    method WriteStringME3LE(str: Str) returns (r: Result<()>)
      requires Valid()
      modifies this
      ensures Valid()
      ensures EncodeME3LE(str).Ok? ==>
        var b := EncodeME3LE(str).value;
        r == Ok(()) && data == Splice(old(data), old(pos), b) && pos == old(pos) + |b|
      ensures EncodeME3LE(str).Err? ==>
        r == Err(ArgumentTooLong) && data == old(data) && pos == old(pos)
    {
      var bytes := Encode(str);
      if |bytes| == 0 {
        WriteShort(0);
        return Ok(());
      }
      if |bytes| > 0x7FFF {
        return Err(ArgumentTooLong);
      }
      ghost var d0, p0 := data, pos;
      WriteShort(|bytes|);
      WriteRaw(bytes);
      SpliceTwice(d0, p0, Int16Bytes(|bytes|), bytes);
      return Ok(());
    }

    /** `foreach (var n in bytes) WriteByte(n)`. */
    method WriteRaw(bytes: seq<byte>)
      requires Valid()
      modifies this
      ensures Valid() && data == Splice(old(data), old(pos), bytes) && pos == old(pos) + |bytes|
    {
      ghost var d0, p0 := data, pos;
      var i := 0;
      while i < |bytes|
        invariant Valid() && 0 <= i <= |bytes|
        invariant data == Splice(d0, p0, bytes[..i]) && pos == p0 + i
      {
        SpliceTwice(d0, p0, bytes[..i], [bytes[i]]);
        assert bytes[..i] + [bytes[i]] == bytes[..i + 1];
        WriteByte(bytes[i]);
        i := i + 1;
      }
      assert bytes[..i] == bytes;
    }
  }
}
