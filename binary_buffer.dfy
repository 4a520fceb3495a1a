/** BinaryBuffer: an append-only byte array whose capacity doubles as it
    fills. Its contents are the first `len` bytes of `buf`. */
module Buffers {
  import opened Wrappers
  import opened Primitives
  import opened StringCodec

  const DefaultCapacity: nat := 32

  // ---------------------------------------------------------------------
  // Growth.

  /** The capacity the setter's loop `while (value > capacity) capacity *= 2`
      reaches from c, exactly as written, run for at most fuel rounds. */
  function DoublingAsWritten(c: nat, value: int, fuel: nat): Option<nat>
    decreases fuel
  {
    if value <= c then Some(c)
    else if fuel == 0 then None
    else DoublingAsWritten(2 * c, value, fuel - 1)
  }

  /** From capacity 0 the doubling never reaches a positive request: a buffer
      created with capacity 0 hangs on its first write. */
  lemma {:induction false} CapacityZeroNeverGrows(value: int, fuel: nat)
    requires value > 0
    ensures DoublingAsWritten(0, value, fuel) == None
    decreases fuel
  {
    if fuel > 0 {
      CapacityZeroNeverGrows(value, fuel - 1);
    }
  }

  /** One round of the corrected loop: double, starting from 1. */
  function Doubled(c: nat): (r: nat)
    ensures r > c
  {
    if c == 0 then 1 else 2 * c
  }

  /** The capacity the corrected loop reaches: the first capacity in the
      doubling sequence from c that holds value bytes. */
  function Grown(c: nat, value: int): (r: nat)
    ensures r >= c && r >= value
    ensures r == c || r < 2 * value
    decreases value - c
  {
    if value <= c then c else Grown(Doubled(c), value)
  }

  /** For every capacity the written loop does stop at, the corrected loop
      reaches the same capacity. */
  lemma {:induction false} GrownAgrees(c: nat, value: int, fuel: nat)
    requires DoublingAsWritten(c, value, fuel).Some?
    ensures c > 0 || value <= 0
    ensures DoublingAsWritten(c, value, fuel) == Some(Grown(c, value))
    decreases fuel
  {
    if value > c {
      if c == 0 {
        CapacityZeroNeverGrows(value, fuel);
      } else {
        GrownAgrees(2 * c, value, fuel - 1);
      }
    }
  }

  // ---------------------------------------------------------------------
  // The buffer.

  class BinaryBuffer {
    var buf: array<byte>
    var len: nat

    ghost predicate Valid()
      reads this
    {
      len <= buf.Length
    }

    /** The bytes written so far. */
    function Contents(): (s: seq<byte>)
      reads this, buf
      requires Valid()
      ensures |s| == len
    {
      buf[..len]
    }

    /** `new BinaryBuffer()`: empty, with the default capacity. */
    constructor ()
      ensures Valid() && Contents() == [] && buf.Length == DefaultCapacity && fresh(buf)
    {
      buf := new byte[DefaultCapacity](_ => 0);
      len := 0;
    }

    constructor WithCapacity(capacity: nat)
      ensures Valid() && Contents() == [] && buf.Length == capacity && fresh(buf)
    {
      buf := new byte[capacity](_ => 0);
      len := 0;
    }

    /** `new BinaryBuffer(capacity)`: a negative capacity raises
        ArgumentOutOfRangeException. */
    static method Create(capacity: int) returns (r: Result<BinaryBuffer>)
      ensures r.Err? <==> capacity < 0
      ensures r.Err? ==> r.error == ArgumentOutOfRange
      ensures r.Ok? ==> fresh(r.value) && fresh(r.value.buf) && r.value.Valid()
      ensures r.Ok? ==> r.value.Contents() == [] && r.value.buf.Length == capacity
    {
      if capacity < 0 {
        return Err(ArgumentOutOfRange);
      }
      var b := new BinaryBuffer.WithCapacity(capacity);
      return Ok(b);
    }

    /** The `Capacity` setter: never shrinks; otherwise grows to the first
        doubled capacity that holds value bytes, keeping the contents. */
    method SetCapacity(value: int)
      requires Valid()
      modifies this
      ensures Valid() && len == old(len) && Contents() == old(Contents())
      ensures old(buf.Length) >= value ==> buf == old(buf)
      ensures old(buf.Length) < value ==> fresh(buf) && buf.Length == Grown(old(buf.Length), value)
      ensures buf.Length >= value && buf.Length >= old(buf.Length)
    {
      if buf.Length >= value {
        return;
      }
      var capacity := buf.Length;
      while value > capacity
        invariant buf.Length <= capacity
        invariant Grown(capacity, value) == Grown(buf.Length, value)
        decreases value - capacity
      {
        capacity := Doubled(capacity);
      }
      var newBuf := new byte[capacity](_ => 0);
      if len != 0 {
        // `_buf.CopyTo(newBuf, 0)` copies the whole old array.
        var i := 0;
        while i < buf.Length
          invariant 0 <= i <= buf.Length <= newBuf.Length
          invariant forall k :: 0 <= k < i ==> newBuf[k] == buf[k]
          modifies newBuf
        {
          newBuf[i] := buf[i];
          i := i + 1;
        }
      }
      assert newBuf[..len] == buf[..len];
      buf := newBuf;
    }

    /** `_buf[_len++] = value`, with room already made. */
    method Put(value: byte)
      requires Valid() && len < buf.Length
      modifies this, buf
      ensures Valid() && buf == old(buf) && Contents() == old(Contents()) + [value]
    {
      buf[len] := value;
      len := len + 1;
    }

    method Clear()
      requires Valid()
      modifies this
      ensures Valid() && Contents() == [] && buf == old(buf)
    {
      len := 0;
    }

    method WriteByte(value: byte)
      requires Valid()
      modifies this, buf
      ensures Valid() && Contents() == old(Contents()) + [value]
      ensures buf == old(buf) || fresh(buf)
    {
      SetCapacity(len + 1);
      Put(value);
    }

    /** The four bytes of a 32-bit pattern, low byte first. */
    method WriteWord(u: uint32)
      requires Valid()
      modifies this, buf
      ensures Valid() && Contents() == old(Contents()) + UInt32Bytes(u)
      ensures buf == old(buf) || fresh(buf)
    {
      SetCapacity(len + 4);
      var b := UInt32Bytes(u);
      Put(b[0]);
      Put(b[1]);
      Put(b[2]);
      Put(b[3]);
      assert [b[0]] + [b[1]] + [b[2]] + [b[3]] == b;
    }

    method WriteInt(value: int32)
      requires Valid()
      modifies this, buf
      ensures Valid() && Contents() == old(Contents()) + Int32Bytes(value)
      ensures buf == old(buf) || fresh(buf)
    {
      WriteWord(Bits32(value));
    }

    method WriteUInt(value: uint32)
      requires Valid()
      modifies this, buf
      ensures Valid() && Contents() == old(Contents()) + UInt32Bytes(value)
      ensures buf == old(buf) || fresh(buf)
    {
      WriteWord(value);
    }

    /** The two bytes of a 16-bit pattern, low byte first. */
    method WriteHalf(u: uint16)
      requires Valid()
      modifies this, buf
      ensures Valid() && Contents() == old(Contents()) + UInt16Bytes(u)
      ensures buf == old(buf) || fresh(buf)
    {
      SetCapacity(len + 2);
      var b := UInt16Bytes(u);
      Put(b[0]);
      Put(b[1]);
      assert [b[0]] + [b[1]] == b;
    }

    method WriteShort(value: int16)
      requires Valid()
      modifies this, buf
      ensures Valid() && Contents() == old(Contents()) + Int16Bytes(value)
      ensures buf == old(buf) || fresh(buf)
    {
      WriteHalf(value % 0x1_0000);
    }

    method WriteUShort(value: uint16)
      requires Valid()
      modifies this, buf
      ensures Valid() && Contents() == old(Contents()) + UInt16Bytes(value)
      ensures buf == old(buf) || fresh(buf)
    {
      WriteHalf(value);
    }

    /** Room for all of them first, then one byte at a time. */
    method WriteBytes(bytes: seq<byte>)
      requires Valid()
      modifies this, buf
      ensures Valid() && Contents() == old(Contents()) + bytes
      ensures buf == old(buf) || fresh(buf)
    {
      SetCapacity(len + |bytes|);
      ghost var c0 := Contents();
      var i := 0;
      while i < |bytes|
        invariant Valid() && 0 <= i <= |bytes| && len + |bytes| - i <= buf.Length
        invariant Contents() == c0 + bytes[..i]
        invariant buf == old(buf) || fresh(buf)
      {
        Put(bytes[i]);
        assert bytes[..i + 1] == bytes[..i] + [bytes[i]];
        i := i + 1;
      }
      assert bytes[..i] == bytes;
    }

    /** Appends bb's contents; bb may be this buffer itself, since the count
        is taken before the first byte is appended. */
    method WriteBuffer(bb: BinaryBuffer)
      requires Valid() && bb.Valid()
      requires bb == this || bb.buf != buf
      modifies this, buf
      ensures Valid() && Contents() == old(Contents()) + old(bb.Contents())
      ensures buf == old(buf) || fresh(buf)
    {
      SetCapacity(len + bb.len);
      CopyFrom(bb.buf, bb.len);
    }

    /** The loop of WriteBuffer: `_buf[_len++] = src[i]` for i below n. The
        source may be this buffer's own array, read below the length. */
    method CopyFrom(src: array<byte>, n: nat)
      requires Valid() && n <= src.Length && len + n <= buf.Length
      requires src == buf ==> n <= len
      modifies this, buf
      ensures Valid() && buf == old(buf) && Contents() == old(Contents()) + old(src[..n])
    {
      ghost var c0, added := Contents(), src[..n];
      var i := 0;
      while i < n
        invariant Valid() && buf == old(buf) && 0 <= i <= n && len == |c0| + i
        invariant src[..n] == added
        invariant Contents() == c0 + added[..i]
      {
        Put(src[i]);
        assert added[..i + 1] == added[..i] + [added[i]];
        i := i + 1;
      }
      assert added[..i] == added;
    }

    /** "" is a zero length; otherwise the length truncated to 16 bits, then
        the low byte of each char: the ME3 string layout. */
    method WriteME3String(str: Str)
      requires Valid()
      modifies this, buf
      ensures Valid() && Contents() == old(Contents()) + EncodeME3(str)
      ensures buf == old(buf) || fresh(buf)
    {
      if |str| == 0 {
        WriteUShort(0);
        return;
      }
      ghost var c0 := Contents();
      var h := UInt16Bytes(|str| % 0x1_0000);
      WriteUShort(|str| % 0x1_0000);
      WriteLowBytes(str);
      assert Contents() == c0 + (h + LowBytes(str));
    }

    /** `foreach (var ch in str) WriteByte((byte)ch)`. */
    method WriteLowBytes(str: Str)
      requires Valid()
      modifies this, buf
      ensures Valid() && Contents() == old(Contents()) + LowBytes(str)
      ensures buf == old(buf) || fresh(buf)
    {
      ghost var c0 := Contents();
      var i := 0;
      while i < |str|
        invariant Valid() && 0 <= i <= |str|
        invariant Contents() == c0 + LowBytes(str[..i])
        invariant buf == old(buf) || fresh(buf)
      {
        WriteByte(LowByte(str[i]));
        LowBytesSnoc(str, i);
        i := i + 1;
      }
      assert str[..i] == str;
    }
  }

  /** The enumerator over a buffer's bytes. */
  class BinaryBufferEnumerator {
    const owner: BinaryBuffer
    var index: int

    /** Positioned before the first byte. */
    constructor (owner: BinaryBuffer)
      ensures this.owner == owner && index == -1
    {
      this.owner := owner;
      index := -1;
    }

    /** Advances while bytes remain; true while positioned on one. */
    method MoveNext() returns (more: bool)
      modifies this
      ensures index == if old(index) < owner.len then old(index) + 1 else old(index)
      ensures more <==> index < owner.len
    {
      if index < owner.len {
        index := index + 1;
      }
      more := index < owner.len;
    }

    /** The byte at the index, read from the array (an index past the array
        is a fault). */
    method Current() returns (r: Result<byte>)
      ensures 0 <= index < owner.buf.Length ==> r == Ok(owner.buf[index])
      ensures !(0 <= index < owner.buf.Length) ==> r == Err(IndexOutOfRange)
    {
      if 0 <= index < owner.buf.Length {
        return Ok(owner.buf[index]);
      }
      return Err(IndexOutOfRange);
    }

    /** Sets the index to 0, not -1: the next MoveNext lands on byte 1. */
    method Reset()
      modifies this
      ensures index == 0
    {
      index := 0;
    }

    /** What `foreach` over the remaining bytes collects. */
    method Rest() returns (s: seq<byte>)
      requires owner.Valid() && -1 <= index
      modifies this
      ensures old(index) < owner.len ==> s == owner.Contents()[old(index) + 1..]
      ensures old(index) >= owner.len ==> s == []
    {
      s := [];
      ghost var start := index;
      var more := MoveNext();
      while more
        invariant owner.Valid()
        invariant more <==> index < owner.len
        invariant start < owner.len ==> start + 1 <= index <= owner.len && index == start + 1 + |s|
        invariant start < owner.len ==> s == owner.Contents()[start + 1..index]
        invariant start >= owner.len ==> s == [] && !more
        decreases owner.len - index
      {
        var b := Current();
        s := s + [b.value];
        more := MoveNext();
      }
    }
  }

  /** Enumerating a buffer from the start yields its contents in order. */
  method Enumerate(b: BinaryBuffer) returns (s: seq<byte>)
    requires b.Valid()
    ensures s == b.Contents()
  {
    var e := new BinaryBufferEnumerator(b);
    s := e.Rest();
  }

  /** After Reset the enumeration starts at the second byte. */
  method EnumerateAfterReset(b: BinaryBuffer) returns (s: seq<byte>)
    requires b.Valid() && b.len > 0
    ensures s == b.Contents()[1..]
  {
    var e := new BinaryBufferEnumerator(b);
    e.Reset();
    s := e.Rest();
  }
}
