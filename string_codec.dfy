/** The three length-prefixed string layouts of the coalesced formats
    (the byte-per-char branches; the UTF-8 build of the ME3 layout is the
    Utf8 module's concern). */
module StringCodec {
  import opened Wrappers
  import opened Primitives
  import opened Formats
  import opened ByteCodec

  predicate NoNul(s: Str)
  {
    forall i :: 0 <= i < |s| ==> s[i] != NUL
  }

  /** Every char fits in one byte and none is NUL: what the ME2 layout keeps. */
  predicate NarrowNoNul(s: Str)
  {
    forall i :: 0 <= i < |s| ==> 0 < s[i] < 0x100
  }

  /** Every char fits in one byte: what the ME3 layout keeps. */
  predicate Narrow(s: Str)
  {
    forall i :: 0 <= i < |s| ==> s[i] < 0x100
  }

  /** Each char as its two UTF-16LE bytes, low byte first. */
  function Utf16Units(s: Str): (b: seq<byte>)
    ensures |b| == 2 * |s|
  {
    if s == [] then [] else [LowByte(s[0]), HighByte(s[0])] + Utf16Units(s[1..])
  }

  /** `(byte)ch` for every char. */
  function LowBytes(s: Str): (b: seq<byte>)
    ensures |b| == |s|
    ensures forall i :: 0 <= i < |s| ==> b[i] == LowByte(s[i])
  {
    if s == [] then [] else [LowByte(s[0])] + LowBytes(s[1..])
  }

  /** `(char)b` for every byte. */
  function Widen(b: seq<byte>): (s: Str)
    ensures |s| == |b|
    ensures forall i :: 0 <= i < |b| ==> s[i] == b[i]
  {
    if b == [] then [] else [b[0] as Char16] + Widen(b[1..])
  }

  lemma {:induction false} Utf16UnitsAppend(a: Str, b: Str)
    ensures Utf16Units(a + b) == Utf16Units(a) + Utf16Units(b)
  {
    if a == [] {
      assert a + b == b;
    } else {
      assert (a + b)[0] == a[0];
      assert (a + b)[1..] == a[1..] + b;
      Utf16UnitsAppend(a[1..], b);
    }
  }

  lemma Utf16UnitsSnoc(s: Str, i: nat)
    requires i < |s|
    ensures Utf16Units(s[..i + 1]) == Utf16Units(s[..i]) + [LowByte(s[i]), HighByte(s[i])]
  {
    assert s[..i + 1] == s[..i] + [s[i]];
    Utf16UnitsAppend(s[..i], [s[i]]);
  }

  lemma LowBytesSnoc(s: Str, i: nat)
    requires i < |s|
    ensures LowBytes(s[..i + 1]) == LowBytes(s[..i]) + [LowByte(s[i])]
  {
    assert LowBytes(s[..i + 1])[..i] == LowBytes(s[..i]);
  }

  // ---------------------------------------------------------------------
  // ME1/2 LE: "" is a zero prefix; otherwise prefix -(L+1), L UTF-16LE
  // units and a two-byte NUL.

  function EncodeME12(s: Str): seq<byte>
  {
    if |s| == 0 then Int32Bytes(0) else Int32Bytes(-(|s| + 1)) + Utf16Units(s) + [0, 0]
  }

  /** Up to n units, stopping after (and consuming) a NUL unit. */
  function ReadUnits(d: seq<byte>, p: nat, n: int): (r: Result<(Str, nat)>)
    ensures r.Ok? ==> NoNul(r.value.0) && p <= r.value.1 <= |d|
    decreases n
  {
    if n <= 0 then (if p <= |d| then Ok(([], p)) else Err(EndOfStream))
    else if p + 2 > |d| then Err(EndOfStream)
    else
      var ch: Char16 := d[p] as int + 0x100 * d[p + 1] as int;
      if ch == NUL then Ok(([], p + 2))
      else
        var rest :- ReadUnits(d, p + 2, n - 1);
        Ok(([ch] + rest.0, rest.1))
  }

  /** A positive prefix is an error; the count is the negated prefix. For
      int.MinValue the negation wraps back to int.MinValue, and the
      StringBuilder given that negative capacity throws
      ArgumentOutOfRangeException. */
  function ReadME12At(d: seq<byte>, p: nat): Result<(Str, nat)>
  {
    var prefix :- ReadInt32At(d, p);
    if prefix.0 > 0 then Err(CoalescedRead(PositivePrefix(prefix.0)))
    else
      var len := Wrap32(-(prefix.0 as int));
      if len < 0 then Err(ArgumentOutOfRange) else ReadUnits(d, prefix.1, len)
  }

  lemma {:induction false} ReadUnitsOf(d: seq<byte>, p: nat, s: Str, n: int)
    requires NoNul(s) && n > |s|
    requires p + 2 * |s| + 2 <= |d|
    requires d[p..p + 2 * |s|] == Utf16Units(s)
    requires d[p + 2 * |s|] == 0 && d[p + 2 * |s| + 1] == 0
    ensures ReadUnits(d, p, n) == Ok((s, p + 2 * |s| + 2))
    decreases |s|
  {
    if s != [] {
      var u := Utf16Units(s);
      assert u == [LowByte(s[0]), HighByte(s[0])] + Utf16Units(s[1..]);
      assert d[p] == u[0] && d[p + 1] == u[1];
      assert d[p + 2..p + 2 + 2 * |s[1..]|] == u[2..];
      ReadUnitsOf(d, p + 2, s[1..], n - 1);
      assert [s[0]] + s[1..] == s;
    }
  }

  // The round trip goes in steps, each proved in a context of its own
  // over a stream d that holds the encoding at p: the prefix, the units,
  // and the two put together.

  lemma ME12Pieces(s: Str)
    requires 0 < |s|
    ensures |EncodeME12(s)| == 2 * |s| + 6
    ensures EncodeME12(s)[0..4] == Int32Bytes(-(|s| + 1))
    ensures EncodeME12(s)[4..4 + 2 * |s|] == Utf16Units(s)
    ensures EncodeME12(s)[4 + 2 * |s|] == 0 && EncodeME12(s)[5 + 2 * |s|] == 0
  {
    var h, u, z: seq<byte> := Int32Bytes(-(|s| + 1)), Utf16Units(s), [0, 0];
    assert EncodeME12(s) == h + u + z;
    Parts3(h, u, z);
  }

  lemma ME12Length(s: Str)
    requires 0 < |s|
    ensures |EncodeME12(s)| == 2 * |s| + 6
  {
  }

  lemma ME12Prefix(d: seq<byte>, p: nat, s: Str)
    requires 0 < |s| < 0x7FFF_FFFF
    requires p + |EncodeME12(s)| <= |d| && d[p..p + |EncodeME12(s)|] == EncodeME12(s)
    ensures ReadInt32At(d, p) == Ok((-(|s| + 1), p + 4))
  {
    ME12Pieces(s);
    SubSlice(d, p, EncodeME12(s), 0, 4);
    ReadInt32Of(d, p, -(|s| + 1));
  }

  lemma ME12Units(d: seq<byte>, p: nat, s: Str, after: nat)
    requires NoNul(s) && 0 < |s|
    requires p + |EncodeME12(s)| <= |d| && d[p..p + |EncodeME12(s)|] == EncodeME12(s)
    requires after == p + |EncodeME12(s)|
    ensures ReadUnits(d, p + 4, |s| + 1) == Ok((s, after))
  {
    var e := EncodeME12(s);
    ME12Pieces(s);
    ME12Length(s);
    SubSlice(d, p, e, 4, 4 + 2 * |s|);
    assert d[p + 4 + 2 * |s|] == e[4 + 2 * |s|] && d[p + 5 + 2 * |s|] == e[5 + 2 * |s|];
    ReadUnitsOf(d, p + 4, s, |s| + 1);
  }

  lemma ME12Compose(d: seq<byte>, p: nat, s: Str, after: nat)
    requires 0 < |s| < 0x7FFF_FFFF
    requires ReadInt32At(d, p) == Ok((-(|s| + 1), p + 4))
    requires ReadUnits(d, p + 4, |s| + 1) == Ok((s, after))
    ensures ReadME12At(d, p) == Ok((s, after))
  {
    WrapInRange(|s| + 1);
  }

  lemma {:induction false} ME12NonEmpty(d: seq<byte>, p: nat, s: Str)
    requires NoNul(s) && 0 < |s| < 0x7FFF_FFFF
    requires p + |EncodeME12(s)| <= |d| && d[p..p + |EncodeME12(s)|] == EncodeME12(s)
    ensures ReadME12At(d, p) == Ok((s, p + |EncodeME12(s)|))
  {
    var after := p + |EncodeME12(s)|;
    ME12Prefix(d, p, s);
    ME12Units(d, p, s, after);
    ME12Compose(d, p, s, after);
  }

  lemma ME12Empty(d: seq<byte>, p: nat, s: Str)
    requires |s| == 0
    requires p + |EncodeME12(s)| <= |d| && d[p..p + |EncodeME12(s)|] == EncodeME12(s)
    ensures ReadME12At(d, p) == Ok((s, p + |EncodeME12(s)|))
  {
    ReadInt32Of(d, p, 0);
    WrapInRange(0);
  }

  /** ME1/2 LE ReadString at a position holding WriteString's bytes. */
  lemma ME12At(d: seq<byte>, p: nat, s: Str)
    requires NoNul(s) && |s| < 0x7FFF_FFFF && Stored(d, p, EncodeME12(s))
    ensures ReadME12At(d, p) == Ok((s, p + |EncodeME12(s)|))
  {
    StoredSlice(d, p, EncodeME12(s));
    if |s| == 0 {
      ME12Empty(d, p, s);
    } else {
      ME12NonEmpty(d, p, s);
    }
  }

  /** ME1/2 LE ReadString inverts WriteString on strings without U+0000. */
  lemma ME12RoundTrip(pre: seq<byte>, s: Str, rest: seq<byte>)
    requires NoNul(s) && |s| < 0x7FFF_FFFF
    ensures ReadME12At(pre + EncodeME12(s) + rest, |pre|) == Ok((s, |pre| + |EncodeME12(s)|))
  {
    var e := EncodeME12(s);
    Whole(pre, e, rest);
    if |s| == 0 {
      ME12Empty(pre + e + rest, |pre|, s);
    } else {
      ME12NonEmpty(pre + e + rest, |pre|, s);
    }
  }

  // ---------------------------------------------------------------------
  // ME2: "" is a zero prefix; otherwise prefix L+1, the low byte of each
  // char and a one-byte NUL.

  function EncodeME2(s: Str): seq<byte>
  {
    if |s| == 0 then Int32Bytes(0) else Int32Bytes(|s| + 1) + LowBytes(s) + [0]
  }

  /** Up to n bytes as chars, stopping after (and consuming) a NUL byte. */
  function ReadNarrow(d: seq<byte>, p: nat, n: int): (r: Result<(Str, nat)>)
    ensures r.Ok? ==> NarrowNoNul(r.value.0) && p <= r.value.1 <= |d|
    decreases n
  {
    if n <= 0 then (if p <= |d| then Ok(([], p)) else Err(EndOfStream))
    else if p + 1 > |d| then Err(EndOfStream)
    else if d[p] == 0 then Ok(([], p + 1))
    else
      var rest :- ReadNarrow(d, p + 1, n - 1);
      Ok(([d[p] as Char16] + rest.0, rest.1))
  }

  /** A negative prefix is an error. */
  function ReadME2At(d: seq<byte>, p: nat): (r: Result<(Str, nat)>)
    ensures r.Ok? ==> p + 4 <= r.value.1 <= |d|
  {
    var prefix :- ReadInt32At(d, p);
    if prefix.0 < 0 then Err(CoalescedRead(NegativePrefix(prefix.0)))
    else ReadNarrow(d, prefix.1, prefix.0)
  }

  lemma {:induction false} ReadNarrowOf(d: seq<byte>, p: nat, s: Str, n: int)
    requires NarrowNoNul(s) && n > |s|
    requires p + |s| + 1 <= |d|
    requires d[p..p + |s|] == LowBytes(s)
    requires d[p + |s|] == 0
    ensures ReadNarrow(d, p, n) == Ok((s, p + |s| + 1))
    decreases |s|
  {
    if s != [] {
      assert d[p] == LowBytes(s)[0];
      assert d[p + 1..p + 1 + |s[1..]|] == LowBytes(s[1..]);
      ReadNarrowOf(d, p + 1, s[1..], n - 1);
      assert [s[0]] + s[1..] == s;
    }
  }

  lemma ME2Pieces(s: Str)
    requires 0 < |s|
    ensures |EncodeME2(s)| == |s| + 5
    ensures EncodeME2(s)[0..4] == Int32Bytes(|s| + 1)
    ensures EncodeME2(s)[4..4 + |s|] == LowBytes(s)
    ensures EncodeME2(s)[4 + |s|] == 0
  {
    var h, l, z: seq<byte> := Int32Bytes(|s| + 1), LowBytes(s), [0];
    assert EncodeME2(s) == h + l + z;
    Parts3(h, l, z);
  }

  lemma ME2Prefix(d: seq<byte>, p: nat, s: Str)
    requires 0 < |s| < 0x7FFF_FFFF
    requires p + |EncodeME2(s)| <= |d| && d[p..p + |EncodeME2(s)|] == EncodeME2(s)
    ensures ReadInt32At(d, p) == Ok((|s| + 1, p + 4))
  {
    ME2Pieces(s);
    SubSlice(d, p, EncodeME2(s), 0, 4);
    ReadInt32Of(d, p, |s| + 1);
  }

  lemma ME2Chars(d: seq<byte>, p: nat, s: Str)
    requires NarrowNoNul(s) && 0 < |s|
    requires p + |EncodeME2(s)| <= |d| && d[p..p + |EncodeME2(s)|] == EncodeME2(s)
    ensures ReadNarrow(d, p + 4, |s| + 1) == Ok((s, p + 4 + |s| + 1))
  {
    var e := EncodeME2(s);
    ME2Pieces(s);
    SubSlice(d, p, e, 4, 4 + |s|);
    assert d[p + 4 + |s|] == e[4 + |s|];
    ReadNarrowOf(d, p + 4, s, |s| + 1);
  }

  lemma ME2Compose(d: seq<byte>, p: nat, s: Str)
    requires 0 < |s| < 0x7FFF_FFFF
    requires ReadInt32At(d, p) == Ok((|s| + 1, p + 4))
    requires ReadNarrow(d, p + 4, |s| + 1) == Ok((s, p + 4 + |s| + 1))
    ensures ReadME2At(d, p) == Ok((s, p + 4 + |s| + 1))
  {
  }

  lemma ME2NonEmpty(d: seq<byte>, p: nat, s: Str)
    requires NarrowNoNul(s) && 0 < |s| < 0x7FFF_FFFF
    requires p + |EncodeME2(s)| <= |d| && d[p..p + |EncodeME2(s)|] == EncodeME2(s)
    ensures ReadME2At(d, p) == Ok((s, p + |EncodeME2(s)|))
  {
    ME2Prefix(d, p, s);
    ME2Chars(d, p, s);
    ME2Compose(d, p, s);
  }

  lemma ME2Empty(d: seq<byte>, p: nat, s: Str)
    requires |s| == 0
    requires p + |EncodeME2(s)| <= |d| && d[p..p + |EncodeME2(s)|] == EncodeME2(s)
    ensures ReadME2At(d, p) == Ok((s, p + |EncodeME2(s)|))
  {
    ReadInt32Of(d, p, 0);
  }

  /** ME2 ReadString at a position holding WriteString's bytes. */
  lemma ME2At(d: seq<byte>, p: nat, s: Str)
    requires NarrowNoNul(s) && |s| < 0x7FFF_FFFF && Stored(d, p, EncodeME2(s))
    ensures ReadME2At(d, p) == Ok((s, p + |EncodeME2(s)|))
  {
    StoredSlice(d, p, EncodeME2(s));
    if |s| == 0 {
      ME2Empty(d, p, s);
    } else {
      ME2NonEmpty(d, p, s);
    }
  }

  /** ME2 ReadString inverts WriteString on strings of chars 1..255. */
  lemma ME2RoundTrip(pre: seq<byte>, s: Str, rest: seq<byte>)
    requires NarrowNoNul(s) && |s| < 0x7FFF_FFFF
    ensures ReadME2At(pre + EncodeME2(s) + rest, |pre|) == Ok((s, |pre| + |EncodeME2(s)|))
  {
    var e := EncodeME2(s);
    Whole(pre, e, rest);
    if |s| == 0 {
      ME2Empty(pre + e + rest, |pre|, s);
    } else {
      ME2NonEmpty(pre + e + rest, |pre|, s);
    }
  }

  // ---------------------------------------------------------------------
  // ME3: "" is a zero short; otherwise the length as an unsigned short and
  // the low byte of each char, with no terminator.

  function EncodeME3(s: Str): seq<byte>
  {
    if |s| == 0 then Int16Bytes(0) else UInt16Bytes(|s| % 0x1_0000) + LowBytes(s)
  }

  /** The length is read back as a signed short: a negative one is an error. */
  function ReadME3At(d: seq<byte>, p: nat): Result<(Str, nat)>
  {
    var prefix :- ReadInt16At(d, p);
    if prefix.0 < 0 then Err(CoalescedRead(NegativePrefix(prefix.0)))
    else
      var chars :- ReadBytesAt(d, prefix.1, prefix.0);
      Ok((Widen(chars.0), chars.1))
  }

  lemma ME3Pieces(s: Str)
    requires 0 < |s|
    ensures |EncodeME3(s)| == |s| + 2
    ensures EncodeME3(s)[0..2] == Int16Bytes(|s|)
    ensures EncodeME3(s)[2..2 + |s|] == LowBytes(s)
  {
    var h, l := UInt16Bytes(|s| % 0x1_0000), LowBytes(s);
    assert EncodeME3(s) == h + l;
    Parts2(h, l);
  }

  lemma ME3Prefix(d: seq<byte>, p: nat, s: Str)
    requires 0 < |s| < 0x8000
    requires p + |EncodeME3(s)| <= |d| && d[p..p + |EncodeME3(s)|] == EncodeME3(s)
    ensures ReadInt16At(d, p) == Ok((|s|, p + 2))
  {
    ME3Pieces(s);
    SubSlice(d, p, EncodeME3(s), 0, 2);
    ReadInt16Of(d, p, |s|);
  }

  lemma ME3Chars(d: seq<byte>, p: nat, s: Str)
    requires 0 < |s|
    requires p + |EncodeME3(s)| <= |d| && d[p..p + |EncodeME3(s)|] == EncodeME3(s)
    ensures ReadBytesAt(d, p + 2, |s|) == Ok((LowBytes(s), p + 2 + |s|))
  {
    ME3Pieces(s);
    SubSlice(d, p, EncodeME3(s), 2, 2 + |s|);
  }

  /** Widening the low bytes of one-byte chars gives the chars back. */
  lemma WidenLowBytes(s: Str)
    requires Narrow(s)
    ensures Widen(LowBytes(s)) == s
  {
    var w := Widen(LowBytes(s));
    forall i | 0 <= i < |s|
      ensures w[i] == s[i]
    {
      assert LowBytes(s)[i] == LowByte(s[i]);
    }
  }

  lemma ME3Compose(d: seq<byte>, p: nat, s: Str)
    requires Narrow(s) && 0 < |s| < 0x8000
    requires ReadInt16At(d, p) == Ok((|s|, p + 2))
    requires ReadBytesAt(d, p + 2, |s|) == Ok((LowBytes(s), p + 2 + |s|))
    ensures ReadME3At(d, p) == Ok((s, p + 2 + |s|))
  {
    WidenLowBytes(s);
  }

  lemma ME3NonEmpty(d: seq<byte>, p: nat, s: Str)
    requires Narrow(s) && 0 < |s| < 0x8000
    requires p + |EncodeME3(s)| <= |d| && d[p..p + |EncodeME3(s)|] == EncodeME3(s)
    ensures ReadME3At(d, p) == Ok((s, p + |EncodeME3(s)|))
  {
    ME3Prefix(d, p, s);
    ME3Chars(d, p, s);
    ME3Compose(d, p, s);
  }

  lemma ME3Empty(d: seq<byte>, p: nat, s: Str)
    requires |s| == 0
    requires p + |EncodeME3(s)| <= |d| && d[p..p + |EncodeME3(s)|] == EncodeME3(s)
    ensures ReadME3At(d, p) == Ok((s, p + |EncodeME3(s)|))
  {
    ReadInt16Of(d, p, 0);
  }

  /** ME3 ReadString at a position holding WriteString's bytes. */
  lemma ME3At(d: seq<byte>, p: nat, s: Str)
    requires Narrow(s) && |s| < 0x8000 && Stored(d, p, EncodeME3(s))
    ensures ReadME3At(d, p) == Ok((s, p + |EncodeME3(s)|))
  {
    StoredSlice(d, p, EncodeME3(s));
    if |s| == 0 {
      ME3Empty(d, p, s);
    } else {
      ME3NonEmpty(d, p, s);
    }
  }

  /** ME3 ReadString inverts WriteString on strings shorter than 32,768
      chars whose chars all fit in a byte. */
  lemma ME3RoundTrip(pre: seq<byte>, s: Str, rest: seq<byte>)
    requires Narrow(s) && |s| < 0x8000
    ensures ReadME3At(pre + EncodeME3(s) + rest, |pre|) == Ok((s, |pre| + |EncodeME3(s)|))
  {
    var e := EncodeME3(s);
    Whole(pre, e, rest);
    if |s| == 0 {
      ME3Empty(pre + e + rest, |pre|, s);
    } else {
      ME3NonEmpty(pre + e + rest, |pre|, s);
    }
  }

  /** Lengths 32,768..65,535 are written but read back as a negative short. */
  lemma ME3LongStringRejected(pre: seq<byte>, s: Str, rest: seq<byte>)
    requires 0x8000 <= |s| < 0x1_0000
    ensures ReadME3At(pre + EncodeME3(s) + rest, |pre|) == Err(CoalescedRead(NegativePrefix(|s| - 0x1_0000)))
  {
    var e := EncodeME3(s);
    var d := pre + e + rest;
    var b := UInt16Bytes(|s|);
    Middle(pre, e, rest, 0, 2);
    assert d[|pre|] == b[0] && d[|pre| + 1] == b[1];
    assert DecodeUInt16(b[0], b[1]) == |s|;
  }

  // ---------------------------------------------------------------------
  // Dispatch on the stream's format.

  /** ReadString: any format other than the three raises
      UnknownCoalescedFormatException. */
  function ReadStringAt(format: CoalFormat, d: seq<byte>, p: nat): Result<(Str, nat)>
  {
    match format
    case MassEffect12LE => ReadME12At(d, p)
    case MassEffect2 => ReadME2At(d, p)
    case MassEffect3 => ReadME3At(d, p)
    case Unknown => Err(UnknownCoalescedFormat)
  }

  /** The bytes WriteString emits, or the exception it raises. */
  function EncodeString(format: CoalFormat, s: Str): Result<seq<byte>>
  {
    match format
    case MassEffect12LE => Ok(EncodeME12(s))
    case MassEffect2 => Ok(EncodeME2(s))
    case MassEffect3 => Ok(EncodeME3(s))
    case Unknown => Err(UnknownCoalescedFormat)
  }

  /** The unknown format fails both ways. */
  lemma UnknownFormatFails(s: Str, d: seq<byte>, p: nat)
    ensures EncodeString(Unknown, s) == Err(UnknownCoalescedFormat)
    ensures ReadStringAt(Unknown, d, p) == Err(UnknownCoalescedFormat)
  {
  }

  /** Each known format's layout, through the dispatch functions. */
  lemma ME12Dispatch(pre: seq<byte>, s: Str, rest: seq<byte>)
    requires NoNul(s) && |s| < 0x7FFF_FFFF
    ensures EncodeString(MassEffect12LE, s) == Ok(EncodeME12(s))
    ensures ReadStringAt(MassEffect12LE, pre + EncodeME12(s) + rest, |pre|) == Ok((s, |pre| + |EncodeME12(s)|))
  {
    ME12RoundTrip(pre, s, rest);
  }

  lemma ME2Dispatch(pre: seq<byte>, s: Str, rest: seq<byte>)
    requires NarrowNoNul(s) && |s| < 0x7FFF_FFFF
    ensures EncodeString(MassEffect2, s) == Ok(EncodeME2(s))
    ensures ReadStringAt(MassEffect2, pre + EncodeME2(s) + rest, |pre|) == Ok((s, |pre| + |EncodeME2(s)|))
  {
    ME2RoundTrip(pre, s, rest);
  }

  lemma ME3Dispatch(pre: seq<byte>, s: Str, rest: seq<byte>)
    requires Narrow(s) && |s| < 0x8000
    ensures EncodeString(MassEffect3, s) == Ok(EncodeME3(s))
    ensures ReadStringAt(MassEffect3, pre + EncodeME3(s) + rest, |pre|) == Ok((s, |pre| + |EncodeME3(s)|))
  {
    ME3RoundTrip(pre, s, rest);
  }

  /** Every known format's layout reads back what it wrote, within each
      format's own limits; only the unknown format refuses to write. */
  lemma StringRoundTrip(format: CoalFormat, pre: seq<byte>, s: Str, rest: seq<byte>)
    requires NarrowNoNul(s) && |s| < 0x8000
    ensures EncodeString(format, s).Err? <==> format == Unknown
    ensures EncodeString(format, s).Ok? ==>
      var e := EncodeString(format, s).value;
      ReadStringAt(format, pre + e + rest, |pre|) == Ok((s, |pre| + |e|))
  {
    match format
    case MassEffect12LE =>
      assert NoNul(s);
      ME12Dispatch(pre, s, rest);
      DispatchOk(format, pre, s, rest, EncodeME12(s));
    case MassEffect2 =>
      ME2Dispatch(pre, s, rest);
      DispatchOk(format, pre, s, rest, EncodeME2(s));
    case MassEffect3 =>
      assert Narrow(s);
      ME3Dispatch(pre, s, rest);
      DispatchOk(format, pre, s, rest, EncodeME3(s));
    case Unknown =>
  }

  /** A format that writes e and reads e back meets StringRoundTrip. */
  lemma DispatchOk(format: CoalFormat, pre: seq<byte>, s: Str, rest: seq<byte>, e: seq<byte>)
    requires EncodeString(format, s) == Ok(e)
    requires ReadStringAt(format, pre + e + rest, |pre|) == Ok((s, |pre| + |e|))
    ensures EncodeString(format, s).Ok? && format != Unknown
    ensures ReadStringAt(format, pre + EncodeString(format, s).value + rest, |pre|) == Ok((s, |pre| + |EncodeString(format, s).value|))
  {
  }
}
