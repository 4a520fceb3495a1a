/** CoalFileStream: the newer converters' cursor over a byte stream. The
    stream is its contents and its position; every read and write moves the
    position, and every read is proved to do what the matching ByteCodec or
    StringCodec reader function says. */
module CoalStream {
  import opened Wrappers
  import opened Primitives
  import opened Formats
  import opened ByteCodec
  import opened StringCodec

  /** A reader's outcome with chars already read in front of it. */
  function Prepend(sb: Str, r: Result<(Str, nat)>): Result<(Str, nat)>
  {
    if r.Ok? then Ok((sb + r.value.0, r.value.1)) else r
  }

  /** Four one-byte writes in a row write the four bytes. */
  lemma ByteByByte(d: seq<byte>, p: nat, b: seq<byte>)
    requires p <= |d| && |b| == 4
    ensures Splice(Splice(Splice(Splice(d, p, [b[0]]), p + 1, [b[1]]), p + 2, [b[2]]), p + 3, [b[3]])
         == Splice(d, p, b)
  {
    SpliceTwice(d, p, [b[0]], [b[1]]);
    SpliceTwice(d, p, [b[0], b[1]], [b[2]]);
    SpliceTwice(d, p, [b[0], b[1], b[2]], [b[3]]);
    assert [b[0], b[1], b[2]] + [b[3]] == b;
  }

  /** Writing the units of one more char extends the written units. */
  lemma UnitsStep(d0: seq<byte>, p0: nat, head: seq<byte>, s: Str, i: nat)
    requires p0 <= |d0| && i < |s|
    ensures Splice(Splice(Splice(d0, p0, head + Utf16Units(s[..i])), p0 + |head| + 2 * i, [LowByte(s[i])]),
                   p0 + |head| + 2 * i + 1, [HighByte(s[i])])
         == Splice(d0, p0, head + Utf16Units(s[..i + 1]))
  {
    var w := head + Utf16Units(s[..i]);
    SpliceTwice(d0, p0, w, [LowByte(s[i])]);
    SpliceTwice(d0, p0, w + [LowByte(s[i])], [HighByte(s[i])]);
    Utf16UnitsSnoc(s, i);
    assert w + [LowByte(s[i])] + [HighByte(s[i])] == head + Utf16Units(s[..i + 1]);
  }

  /** Writing the low byte of one more char extends the written bytes. */
  lemma LowBytesStep(d0: seq<byte>, p0: nat, head: seq<byte>, s: Str, i: nat)
    requires p0 <= |d0| && i < |s|
    ensures Splice(Splice(d0, p0, head + LowBytes(s[..i])), p0 + |head| + i, [LowByte(s[i])])
         == Splice(d0, p0, head + LowBytes(s[..i + 1]))
  {
    var w := head + LowBytes(s[..i]);
    SpliceTwice(d0, p0, w, [LowByte(s[i])]);
    LowBytesSnoc(s, i);
    assert w + [LowByte(s[i])] == head + LowBytes(s[..i + 1]);
  }

  /** The UTF-16 reader fails when a unit is cut short. */
  lemma ReadUnitsShort(d: seq<byte>, p: nat, n: int, sb: Str)
    requires n > 0 && p + 2 > |d|
    ensures Prepend(sb, ReadUnits(d, p, n)) == Err(EndOfStream)
  { }

  /** One step of the UTF-16 reader, seen from the chars already read. */
  lemma ReadUnitsStep(d: seq<byte>, p: nat, n: int, sb: Str, ch: Char16)
    requires n > 0 && p + 2 <= |d| && ch == d[p] as int + 0x100 * d[p + 1] as int
    ensures Prepend(sb, ReadUnits(d, p, n))
      == if ch == 0 then Ok((sb, p + 2)) else Prepend(sb + [ch], ReadUnits(d, p + 2, n - 1))
  {
    if ch == 0 {
      assert sb + [] == sb;
    } else {
      var rest := ReadUnits(d, p + 2, n - 1);
      if rest.Ok? {
        assert sb + ([ch] + rest.value.0) == sb + [ch] + rest.value.0;
      }
    }
  }

  /** One step of the byte-per-char reader, seen from the chars already read. */
  lemma ReadNarrowStep(d: seq<byte>, p: nat, n: int, sb: Str)
    requires n > 0
    ensures p + 1 > |d| ==> Prepend(sb, ReadNarrow(d, p, n)) == Err(EndOfStream)
    ensures p + 1 <= |d| ==>
      Prepend(sb, ReadNarrow(d, p, n))
        == if d[p] == 0 then Ok((sb, p + 1)) else Prepend(sb + [d[p] as Char16], ReadNarrow(d, p + 1, n - 1))
  {
    if p + 1 <= |d| {
      if d[p] == 0 {
        assert sb + [] == sb;
      } else {
        var rest := ReadNarrow(d, p + 1, n - 1);
        if rest.Ok? {
          assert sb + ([d[p] as Char16] + rest.value.0) == sb + [d[p] as Char16] + rest.value.0;
        }
      }
    }
  }

  lemma PrependNothing(r: Result<(Str, nat)>)
    ensures Prepend([], r) == r
  {
    if r.Ok? {
      assert [] + r.value.0 == r.value.0;
    }
  }

  /** Three writes in a row write the three pieces. */
  lemma SpliceThree(d: seq<byte>, p: nat, a: seq<byte>, b: seq<byte>, c: seq<byte>)
    requires p <= |d|
    ensures Splice(Splice(Splice(d, p, a), p + |a|, b), p + |a| + |b|, c) == Splice(d, p, a + b + c)
  {
    SpliceTwice(d, p, a, b);
    SpliceTwice(d, p, a + b, c);
  }

  /** The pieces WriteString emits for the ME1/2 LE layout. */
  lemma EncodeME12Parts(s: Str)
    requires 0 < |s|
    ensures EncodeME12(s) == Int32Bytes(-(|s| + 1)) + Utf16Units(s) + [0, 0]
  {
  }

  /** A write just after an earlier one extends what the earlier one wrote. */
  lemma WriteAfter(d0: seq<byte>, p0: nat, a: seq<byte>, b: seq<byte>, d1: seq<byte>, d2: seq<byte>)
    requires p0 <= |d0| && d1 == Splice(d0, p0, a)
    requires p0 + |a| <= |d1| && d2 == Splice(d1, p0 + |a|, b)
    ensures d2 == Splice(d0, p0, a + b)
  {
    SpliceTwice(d0, p0, a, b);
  }

  /** The ME1/2 LE encoding of a non-empty string, piece by piece as
      WriteString emits it. */
  lemma ME12Emitted(s: Str, a: seq<byte>)
    requires 0 < |s| && a == Int32Bytes(-(|s| + 1))
    ensures EncodeME12(s) == a + Utf16Units(s) + [0] + [0]
  {
    EncodeME12Parts(s);
    TwoNuls(a + Utf16Units(s));
  }

  lemma TwoNuls(a: seq<byte>)
    ensures a + [0, 0] == a + [0] + [0]
  { }

  /** The pieces WriteString emits for the ME2 layout. */
  lemma EncodeME2Parts(s: Str)
    requires 0 < |s|
    ensures EncodeME2(s) == Int32Bytes(Wrap32(|s| + 1)) + LowBytes(s) + [0]
  {
    Int32BytesWrap(|s| + 1);
  }

  /** The pieces WriteString emits for the ME3 layout. */
  lemma EncodeME3Parts(s: Str)
    requires 0 < |s|
    ensures EncodeME3(s) == UInt16Bytes(|s| % 0x1_0000) + LowBytes(s)
  {
  }

  /** The loop readers stop with nothing more when the count runs out. */
  lemma ReadersDone(d: seq<byte>, p: nat, sb: Str)
    requires p <= |d|
    ensures Prepend(sb, ReadUnits(d, p, 0)) == Ok((sb, p))
    ensures Prepend(sb, ReadNarrow(d, p, 0)) == Ok((sb, p))
  {
    assert sb + [] == sb;
  }

  class CoalFileStream {
    /** The stream's contents. */
    var data: seq<byte>
    /** The stream's position. */
    var pos: nat
    const format: CoalFormat

    ghost predicate Valid()
      reads this
    {
      pos <= |data|
    }

    /** A stream over the given contents, positioned at its start. */
    constructor (contents: seq<byte>, format: CoalFormat)
      ensures Valid() && data == contents && pos == 0 && this.format == format
    {
      data := contents;
      pos := 0;
      this.format := format;
    }

    /** `EndOfStream`: the position has reached the length. */
    function AtEnd(): (b: bool)
      reads this
      requires Valid()
      ensures b <==> ReadByteAt(data, pos).Err?
    {
      pos >= |data|
    }

    method ReadByte() returns (r: Result<byte>)
      requires Valid()
      modifies this
      ensures Valid() && data == old(data)
      ensures Follows(r, pos, ReadByteAt(old(data), old(pos)))
    {
      if pos >= |data| {
        return Err(EndOfStream);
      }
      r := Ok(data[pos]);
      pos := pos + 1;
    }

    method WriteByte(b: byte)
      requires Valid()
      modifies this
      ensures Valid() && data == Splice(old(data), old(pos), [b]) && pos == old(pos) + 1
    {
      data := Splice(data, pos, [b]);
      pos := pos + 1;
    }

    /** Four bytes, low byte first, each checked for end of stream. */
    method ReadInt() returns (r: Result<int32>)
      requires Valid()
      modifies this
      ensures Valid() && data == old(data)
      ensures Follows(r, pos, ReadInt32At(old(data), old(pos)))
    {
      var n1 :- ReadByte();
      var n2 :- ReadByte();
      var n3 :- ReadByte();
      var n4 :- ReadByte();
      return Ok(DecodeInt32(n1, n2, n3, n4));
    }

    method ReadUInt() returns (r: Result<uint32>)
      requires Valid()
      modifies this
      ensures Valid() && data == old(data)
      ensures Follows(r, pos, ReadUInt32At(old(data), old(pos)))
    {
      var n1 :- ReadByte();
      var n2 :- ReadByte();
      var n3 :- ReadByte();
      var n4 :- ReadByte();
      return Ok(DecodeUInt32(n1, n2, n3, n4));
    }

    method ReadShort() returns (r: Result<int16>)
      requires Valid()
      modifies this
      ensures Valid() && data == old(data)
      ensures Follows(r, pos, ReadInt16At(old(data), old(pos)))
    {
      var n1 :- ReadByte();
      var n2 :- ReadByte();
      return Ok(DecodeInt16(n1, n2));
    }

    method ReadUShort() returns (r: Result<uint16>)
      requires Valid()
      modifies this
      ensures Valid() && data == old(data)
      ensures Follows(r, pos, ReadUInt16At(old(data), old(pos)))
    {
      var n1 :- ReadByte();
      var n2 :- ReadByte();
      return Ok(DecodeUInt16(n1, n2));
    }

    /** The four bytes of a 32-bit pattern, low byte first. */
    method WriteWord(u: uint32)
      requires Valid()
      modifies this
      ensures Valid() && data == Splice(old(data), old(pos), UInt32Bytes(u)) && pos == old(pos) + 4
    {
      ghost var d0, p0 := data, pos;
      var b := UInt32Bytes(u);
      WriteByte(b[0]);
      WriteByte(b[1]);
      WriteByte(b[2]);
      WriteByte(b[3]);
      ByteByByte(d0, p0, b);
    }

    /** `(value >> 8k) & 0xff` for k = 0..3: the two's-complement pattern. */
    method WriteInt(value: int32)
      requires Valid()
      modifies this
      ensures Valid() && data == Splice(old(data), old(pos), Int32Bytes(value)) && pos == old(pos) + 4
    {
      WriteWord(Bits32(value));
    }

    method WriteUInt(value: uint32)
      requires Valid()
      modifies this
      ensures Valid() && data == Splice(old(data), old(pos), UInt32Bytes(value)) && pos == old(pos) + 4
    {
      WriteWord(value);
    }

    /** The two bytes of a 16-bit pattern, low byte first. */
    method WriteHalf(u: uint16)
      requires Valid()
      modifies this
      ensures Valid() && data == Splice(old(data), old(pos), UInt16Bytes(u)) && pos == old(pos) + 2
    {
      ghost var d0, p0 := data, pos;
      var b := UInt16Bytes(u);
      WriteByte(b[0]);
      WriteByte(b[1]);
      SpliceTwice(d0, p0, [b[0]], [b[1]]);
    }

    method WriteShort(value: int16)
      requires Valid()
      modifies this
      ensures Valid() && data == Splice(old(data), old(pos), Int16Bytes(value)) && pos == old(pos) + 2
    {
      WriteHalf(value % 0x1_0000);
    }

    method WriteUShort(value: uint16)
      requires Valid()
      modifies this
      ensures Valid() && data == Splice(old(data), old(pos), UInt16Bytes(value)) && pos == old(pos) + 2
    {
      WriteHalf(value);
    }

    method WriteBytes(bytes: seq<byte>)
      requires Valid()
      modifies this
      ensures Valid() && data == Splice(old(data), old(pos), bytes) && pos == old(pos) + |bytes|
    {
      data := Splice(data, pos, bytes);
      pos := pos + |bytes|;
    }
  
    /** `Stream.Read(buf)`: copies what is left, up to the buffer's length;
        a short read raises EndOfStreamException. */
    method Read(buf: array<byte>) returns (r: Result<()>)
      requires Valid()
      modifies this, buf
      ensures Valid() && data == old(data)
      ensures old(pos) + buf.Length <= |data| ==>
        r == Ok(()) && pos == old(pos) + buf.Length && buf[..] == data[old(pos)..pos]
      ensures old(pos) + buf.Length > |data| ==>
        r == Err(EndOfStream) && pos == |data| && buf[..|data| - old(pos)] == data[old(pos)..]
    {
      var p0 := pos;
      var n := if buf.Length <= |data| - p0 then buf.Length else |data| - p0;
      var i := 0;
      while i < n
        invariant 0 <= i <= n && p0 + n <= |data| && pos == p0 && data == old(data)
        invariant forall k :: 0 <= k < i ==> buf[k] == data[p0 + k]
      {
        buf[i] := data[p0 + i];
        i := i + 1;
      }
      assert buf[..n] == data[p0..p0 + n];
      pos := p0 + n;
      if n != buf.Length {
        assert p0 + n == |data|;
        return Err(EndOfStream);
      }
      assert buf[..] == buf[..n];
      return Ok(());
    }

    /** `ReadBytes(length)`: a fresh buffer of that length, filled by Read. */
    method ReadBytes(length: int) returns (r: Result<seq<byte>>)
      requires Valid()
      modifies this
      ensures Valid() && data == old(data)
      ensures Follows(r, pos, ReadBytesAt(old(data), old(pos), length))
    {
      if length < 0 {
        return Err(Overflow);
      }
      var buf := new byte[length];
      var done := Read(buf);
      if done.Err? {
        return Err(EndOfStream);
      }
      return Ok(buf[..]);
    }

    // -------------------------------------------------------------------
    // ReadString, one method per format branch.

    method ReadString() returns (r: Result<Str>)
      requires Valid()
      modifies this
      ensures Valid() && data == old(data)
      ensures Follows(r, pos, ReadStringAt(format, old(data), old(pos)))
    {
      match format
      case MassEffect12LE => r := ReadStringME12();
      case MassEffect2 => r := ReadStringME2();
      case MassEffect3 => r := ReadStringME3();
      case Unknown => r := Err(UnknownCoalescedFormat);
    }

    /** Negated prefix, then up to that many UTF-16LE units, stopping after
        a NUL unit. */
    method ReadStringME12() returns (r: Result<Str>)
      requires Valid()
      modifies this
      ensures Valid() && data == old(data)
      ensures Follows(r, pos, ReadME12At(old(data), old(pos)))
    {
      ghost var spec := ReadME12At(data, pos);
      var len :- ReadInt();
      if len > 0 {
        return Err(CoalescedRead(PositivePrefix(len)));
      }
      var n: int32 := Wrap32(-(len as int));
      if n < 0 {
        return Err(ArgumentOutOfRange);
      }
      var sb: Str := [];
      var i := 0;
      PrependNothing(ReadUnits(data, pos, n));
      while i < n
        invariant Valid() && data == old(data)
        invariant 0 <= i <= n
        invariant spec == Prepend(sb, ReadUnits(data, pos, n - i))
      {
        ghost var p0 := pos;
        if pos + 2 > |data| {
          ReadUnitsShort(data, pos, n - i, sb);
        }
        var lo :- ReadByte();
        var hi :- ReadByte();
        var ch: Char16 := lo as int + 0x100 * hi as int;
        ReadUnitsStep(data, p0, n - i, sb, ch);
        if ch == NUL {
          return Ok(sb);
        }
        sb := sb + [ch];
        i := i + 1;
      }
      ReadersDone(data, pos, sb);
      return Ok(sb);
    }

    /** Non-negative prefix, then up to that many bytes as chars, stopping
        after a NUL byte. */
    method ReadStringME2() returns (r: Result<Str>)
      requires Valid()
      modifies this
      ensures Valid() && data == old(data)
      ensures Follows(r, pos, ReadME2At(old(data), old(pos)))
    {
      ghost var spec := ReadME2At(data, pos);
      var len :- ReadInt();
      if len < 0 {
        return Err(CoalescedRead(NegativePrefix(len)));
      }
      var sb: Str := [];
      var i := 0;
      PrependNothing(ReadNarrow(data, pos, len));
      while i < len
        invariant Valid() && data == old(data)
        invariant 0 <= i <= len
        invariant spec == Prepend(sb, ReadNarrow(data, pos, len - i))
      {
        ReadNarrowStep(data, pos, len - i, sb);
        var b :- ReadByte();
        if b == 0 {
          return Ok(sb);
        }
        sb := sb + [b as Char16];
        i := i + 1;
      }
      ReadersDone(data, pos, sb);
      return Ok(sb);
    }

    /** Signed 16-bit prefix, then exactly that many bytes as chars. */
    method ReadStringME3() returns (r: Result<Str>)
      requires Valid()
      modifies this
      ensures Valid() && data == old(data)
      ensures Follows(r, pos, ReadME3At(old(data), old(pos)))
    {
      ghost var spec := ReadME3At(data, pos);
      var len :- ReadShort();
      if len < 0 {
        return Err(CoalescedRead(NegativePrefix(len)));
      }
      ghost var start := pos;
      assert spec == (var chars :- ReadBytesAt(data, start, len); Ok((Widen(chars.0), chars.1)));
      var sb: Str := [];
      var i := 0;
      while i < len
        invariant Valid() && data == old(data)
        invariant 0 <= i <= len && pos == start + i
        invariant sb == Widen(data[start..pos])
      {
        ghost var p := pos;
        var b :- ReadByte();
        assert data[start..pos] == data[start..p] + [b];
        sb := sb + [b as Char16];
        i := i + 1;
      }
      return Ok(sb);
    }

    // -------------------------------------------------------------------
    // WriteString, one method per format branch.

    method WriteString(str: Str) returns (r: Result<()>)
      requires Valid()
      modifies this
      ensures Valid()
      ensures EncodeString(format, str).Ok? ==>
        var b := EncodeString(format, str).value;
        r == Ok(()) && data == Splice(old(data), old(pos), b) && pos == old(pos) + |b|
      ensures EncodeString(format, str).Err? ==>
        r == Err(UnknownCoalescedFormat) && data == old(data) && pos == old(pos)
    {
      match format
      case MassEffect12LE =>
        WriteStringME12(str);
        r := Ok(());
      case MassEffect2 =>
        WriteStringME2(str);
        r := Ok(());
      case MassEffect3 =>
        WriteStringME3(str);
        r := Ok(());
      case Unknown =>
        r := Err(UnknownCoalescedFormat);
    }

    /** The two UTF-16LE bytes of each char, low byte first. */
    method WriteUnits(str: Str)
      requires Valid()
      modifies this
      ensures Valid() && data == Splice(old(data), old(pos), Utf16Units(str))
      ensures pos == old(pos) + 2 * |str|
    {
      ghost var d0, p0 := data, pos;
      var i := 0;
      while i < |str|
        invariant Valid() && 0 <= i <= |str|
        invariant data == Splice(d0, p0, [] + Utf16Units(str[..i])) && pos == p0 + 2 * i
      {
        UnitsStep(d0, p0, [], str, i);
        WriteByte(LowByte(str[i]));
        WriteByte(HighByte(str[i]));
        i := i + 1;
      }
      assert str[..i] == str;
      assert [] + Utf16Units(str[..i]) == Utf16Units(str);
    }

    /** `(byte)ch` for each char. */
    method WriteLowBytes(str: Str)
      requires Valid()
      modifies this
      ensures Valid() && data == Splice(old(data), old(pos), LowBytes(str))
      ensures pos == old(pos) + |str|
    {
      ghost var d0, p0 := data, pos;
      var i := 0;
      while i < |str|
        invariant Valid() && 0 <= i <= |str|
        invariant data == Splice(d0, p0, [] + LowBytes(str[..i])) && pos == p0 + i
      {
        LowBytesStep(d0, p0, [], str, i);
        WriteByte(LowByte(str[i]));
        i := i + 1;
      }
      assert str[..i] == str;
      assert [] + LowBytes(str[..i]) == LowBytes(str);
    }

    /** Prefix -(L+1), the units, then a two-byte NUL. */
    method WriteStringME12(str: Str)
      requires Valid()
      modifies this
      ensures Valid() && data == Splice(old(data), old(pos), EncodeME12(str))
      ensures pos == old(pos) + |EncodeME12(str)|
    {
      if |str| == 0 {
        WriteInt(0);
        return;
      }
      ghost var d0, p0 := data, pos;
      ghost var a := Int32Bytes(-(|str| + 1));
      Int32BytesWrap(-(|str| + 1));
      WriteInt(Wrap32(-(|str| + 1)));
      ghost var d1 := data;
      WriteUnits(str);
      WriteAfter(d0, p0, a, Utf16Units(str), d1, data);
      ghost var d2, b := data, a + Utf16Units(str);
      WriteByte(0);
      WriteAfter(d0, p0, b, [0], d2, data);
      ghost var d3 := data;
      WriteByte(0);
      WriteAfter(d0, p0, b + [0], [0], d3, data);
      ME12Emitted(str, a);
    }

    /** Prefix L+1, the low byte of each char, then a NUL byte. */
    method WriteStringME2(str: Str)
      requires Valid()
      modifies this
      ensures Valid() && data == Splice(old(data), old(pos), EncodeME2(str))
      ensures pos == old(pos) + |EncodeME2(str)|
    {
      if |str| == 0 {
        WriteInt(0);
        return;
      }
      ghost var d0, p0 := data, pos;
      WriteInt(Wrap32(|str| + 1));
      WriteLowBytes(str);
      WriteByte(0);
      SpliceThree(d0, p0, Int32Bytes(Wrap32(|str| + 1)), LowBytes(str), [0]);
      EncodeME2Parts(str);
    }

    /** The length as an unsigned short (truncated to 16 bits), then the low
        byte of each char. */
    method WriteStringME3(str: Str)
      requires Valid()
      modifies this
      ensures Valid() && data == Splice(old(data), old(pos), EncodeME3(str))
      ensures pos == old(pos) + |EncodeME3(str)|
    {
      if |str| == 0 {
        WriteShort(0);
        return;
      }
      ghost var d0, p0 := data, pos;
      WriteUShort(|str| % 0x1_0000);
      WriteLowBytes(str);
      SpliceTwice(d0, p0, UInt16Bytes(|str| % 0x1_0000), LowBytes(str));
      EncodeME3Parts(str);
    }
  }
}
