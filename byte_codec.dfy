/** A byte stream as the converters see it: a sequence of bytes and a cursor.
    Writes overwrite at the cursor and extend the stream past its end; reads
    are pure functions from (bytes, cursor) to the value read and the new
    cursor, or the exception the stream raises. */
module ByteCodec {
  import opened Wrappers
  import opened Primitives

  /** The stream contents after writing b at position p. */
  function Splice(d: seq<byte>, p: nat, b: seq<byte>): (r: seq<byte>)
    requires p <= |d|
    ensures |r| == if p + |b| <= |d| then |d| else p + |b|
    ensures r[..p] == d[..p] && r[p..p + |b|] == b
    ensures forall i :: p + |b| <= i < |d| ==> r[i] == d[i]
  {
    d[..p] + b + (if p + |b| <= |d| then d[p + |b|..] else [])
  }

  /** Writing a, then b right after it, is writing a + b. */
  lemma SpliceTwice(d: seq<byte>, p: nat, a: seq<byte>, b: seq<byte>)
    requires p <= |d|
    ensures Splice(Splice(d, p, a), p + |a|, b) == Splice(d, p, a + b)
  {
    var l := Splice(Splice(d, p, a), p + |a|, b);
    var r := Splice(d, p, a + b);
    assert |l| == |r|;
    forall i | 0 <= i < |l|
      ensures l[i] == r[i]
    {
      if i < p {
        assert l[i] == l[..p][i];
        assert r[i] == r[..p][i];
      } else if i < p + |a| {
        assert l[i] == Splice(d, p, a)[..p + |a|][i];
        assert Splice(d, p, a)[p..p + |a|][i - p] == a[i - p];
        assert r[p..p + |a + b|][i - p] == (a + b)[i - p];
      } else if i < p + |a| + |b| {
        assert l[p + |a|..p + |a| + |b|][i - p - |a|] == b[i - p - |a|];
        assert r[p..p + |a + b|][i - p] == (a + b)[i - p];
      }
    }
  }

  /** At the end of the stream a write appends. */
  lemma SpliceAtEnd(d: seq<byte>, b: seq<byte>)
    ensures Splice(d, |d|, b) == d + b
  {
    assert d[..|d|] == d;
  }

  /** A stream method's outcome r, with the cursor left at newPos, is the one
      the reader function spec describes. */
  predicate Follows<T(==)>(r: Result<T>, newPos: nat, spec: Result<(T, nat)>)
  {
    if spec.Ok? then r == Ok(spec.value.0) && newPos == spec.value.1
    else r == Err(spec.error)
  }

  // ---------------------------------------------------------------------
  // Readers. Each integer read pulls its bytes one at a time and raises
  // EndOfStreamException at the first missing one, so it fails exactly when
  // fewer bytes than it needs remain.

  function ReadByteAt(d: seq<byte>, p: nat): Result<(byte, nat)>
  {
    if p < |d| then Ok((d[p], p + 1)) else Err(EndOfStream)
  }

  function ReadInt32At(d: seq<byte>, p: nat): Result<(int32, nat)>
  {
    if p + 4 <= |d| then Ok((DecodeInt32(d[p], d[p + 1], d[p + 2], d[p + 3]), p + 4))
    else Err(EndOfStream)
  }

  function ReadUInt32At(d: seq<byte>, p: nat): Result<(uint32, nat)>
  {
    if p + 4 <= |d| then Ok((DecodeUInt32(d[p], d[p + 1], d[p + 2], d[p + 3]), p + 4))
    else Err(EndOfStream)
  }

  function ReadInt16At(d: seq<byte>, p: nat): Result<(int16, nat)>
  {
    if p + 2 <= |d| then Ok((DecodeInt16(d[p], d[p + 1]), p + 2)) else Err(EndOfStream)
  }

  function ReadUInt16At(d: seq<byte>, p: nat): Result<(uint16, nat)>
  {
    if p + 2 <= |d| then Ok((DecodeUInt16(d[p], d[p + 1]), p + 2)) else Err(EndOfStream)
  }

  /** `ReadBytes(length)`: a negative length cannot be allocated, and a short
      read raises EndOfStreamException. */
  function ReadBytesAt(d: seq<byte>, p: nat, n: int): Result<(seq<byte>, nat)>
  {
    if n < 0 then Err(Overflow)
    else if p + n <= |d| then Ok((d[p..p + n], p + n))
    else Err(EndOfStream)
  }

  /** The bytes of mid, wherever it sits in a stream. */
  lemma Middle(pre: seq<byte>, mid: seq<byte>, rest: seq<byte>, i: nat, j: nat)
    requires i <= j <= |mid|
    ensures (pre + mid + rest)[|pre| + i..|pre| + j] == mid[i..j]
  {
    var d := pre + mid + rest;
    assert forall k :: |pre| + i <= k < |pre| + j ==> d[k] == mid[k - |pre|];
  }

  /** The pieces of a two-part layout. */
  lemma Parts2(a: seq<byte>, b: seq<byte>)
    ensures (a + b)[..|a|] == a && (a + b)[|a|..|a| + |b|] == b
  {
  }

  /** The pieces of a three-part layout. */
  lemma Parts3(a: seq<byte>, b: seq<byte>, c: seq<byte>)
    ensures (a + b + c)[..|a|] == a && (a + b + c)[|a|..|a| + |b|] == b
    ensures (a + b + c)[|a| + |b|..|a| + |b| + |c|] == c
  {
  }

  /** The whole of mid, wherever it sits in a stream. */
  lemma Whole(pre: seq<byte>, mid: seq<byte>, rest: seq<byte>)
    ensures (pre + mid + rest)[|pre|..|pre| + |mid|] == mid
  {
    Middle(pre, mid, rest, 0, |mid|);
    assert mid[0..|mid|] == mid;
  }

  /** A piece of w, where w sits at p. */
  lemma SubSlice(d: seq<byte>, p: nat, w: seq<byte>, i: nat, j: nat)
    requires p + |w| <= |d| && d[p..p + |w|] == w && i <= j <= |w|
    ensures d[p + i..p + j] == w[i..j]
  {
    forall m | 0 <= m < j - i
      ensures d[p + i..p + j][m] == w[i..j][m]
    {
      assert d[p..p + |w|][i + m] == d[p + i + m];
    }
  }

  /** x sits in the stream d at position p, byte by byte. */
  predicate Stored(d: seq<byte>, p: nat, x: seq<byte>)
    decreases |x|
  {
    if x == [] then p <= |d| else p < |d| && d[p] == x[0] && Stored(d, p + 1, x[1..])
  }

  /** Stored is the slice of d at p being x. */
  lemma {:induction false} StoredSlice(d: seq<byte>, p: nat, x: seq<byte>)
    ensures Stored(d, p, x) <==> p + |x| <= |d| && d[p..p + |x|] == x
    decreases |x|
  {
    if x != [] {
      StoredSlice(d, p + 1, x[1..]);
      if p + |x| <= |d| {
        assert d[p..p + |x|] == [d[p]] + d[p + 1..p + 1 + |x[1..]|];
        assert x == [x[0]] + x[1..];
      }
    }
  }

  /** The two halves of what is stored. */
  lemma StoredSplit(d: seq<byte>, p: nat, a: seq<byte>, b: seq<byte>)
    requires Stored(d, p, a + b)
    ensures Stored(d, p, a) && Stored(d, p + |a|, b)
  {
    StoredSlice(d, p, a + b);
    StoredSlice(d, p, a);
    StoredSlice(d, p + |a|, b);
    SubSlice(d, p, a + b, 0, |a|);
    SubSlice(d, p, a + b, |a|, |a| + |b|);
    assert (a + b)[..|a|] == a;
    assert (a + b)[|a|..|a| + |b|] == b;
  }

  /** The three pieces of what is stored. */
  lemma StoredSplit3(d: seq<byte>, p: nat, a: seq<byte>, b: seq<byte>, c: seq<byte>)
    requires Stored(d, p, a + b + c)
    ensures Stored(d, p, a) && Stored(d, p + |a|, b) && Stored(d, p + |a| + |b|, c)
  {
    StoredSplit(d, p, a + b, c);
    StoredSplit(d, p, a, b);
  }

  /** What sits in the middle of a stream is stored there. */
  lemma StoredWhole(pre: seq<byte>, x: seq<byte>, rest: seq<byte>)
    ensures Stored(pre + x + rest, |pre|, x)
  {
    Whole(pre, x, rest);
    StoredSlice(pre + x + rest, |pre|, x);
  }

  lemma ReadInt32Of(d: seq<byte>, p: nat, v: int32)
    requires p + 4 <= |d| && d[p..p + 4] == Int32Bytes(v)
    ensures ReadInt32At(d, p) == Ok((v, p + 4))
  {
    var b := Int32Bytes(v);
    assert d[p] == b[0] && d[p + 1] == b[1] && d[p + 2] == b[2] && d[p + 3] == b[3];
    Int32RoundTrip(v);
  }

  lemma ReadInt16Of(d: seq<byte>, p: nat, v: int16)
    requires p + 2 <= |d| && d[p..p + 2] == Int16Bytes(v)
    ensures ReadInt16At(d, p) == Ok((v, p + 2))
  {
    var b := Int16Bytes(v);
    assert d[p] == b[0] && d[p + 1] == b[1];
    Int16RoundTrip(v, 0);
  }

  /** ReadInt inverts WriteInt wherever the four bytes sit in the stream. */
  lemma ReadInt32Written(pre: seq<byte>, v: int32, rest: seq<byte>)
    ensures ReadInt32At(pre + Int32Bytes(v) + rest, |pre|) == Ok((v, |pre| + 4))
  {
    var d := pre + Int32Bytes(v) + rest;
    var b := Int32Bytes(v);
    assert d[|pre|] == b[0] && d[|pre| + 1] == b[1] && d[|pre| + 2] == b[2] && d[|pre| + 3] == b[3];
    Int32RoundTrip(v);
  }

  /** ReadUInt inverts WriteUInt. */
  lemma ReadUInt32Written(pre: seq<byte>, v: uint32, rest: seq<byte>)
    ensures ReadUInt32At(pre + Int32Bytes(v) + rest, |pre|) == Ok((v, |pre| + 4))
  {
    var d := pre + Int32Bytes(v) + rest;
    var b := Int32Bytes(v);
    assert d[|pre|] == b[0] && d[|pre| + 1] == b[1] && d[|pre| + 2] == b[2] && d[|pre| + 3] == b[3];
    UInt32RoundTrip(v);
  }

  /** ReadShort inverts WriteShort and ReadUShort inverts WriteUShort. */
  lemma Read16Written(pre: seq<byte>, v: int16, u: uint16, rest: seq<byte>)
    ensures ReadInt16At(pre + Int16Bytes(v) + rest, |pre|) == Ok((v, |pre| + 2))
    ensures ReadUInt16At(pre + Int16Bytes(u) + rest, |pre|) == Ok((u, |pre| + 2))
  {
    var d := pre + Int16Bytes(v) + rest;
    assert d[|pre|] == Int16Bytes(v)[0] && d[|pre| + 1] == Int16Bytes(v)[1];
    var e := pre + Int16Bytes(u) + rest;
    assert e[|pre|] == Int16Bytes(u)[0] && e[|pre| + 1] == Int16Bytes(u)[1];
    Int16RoundTrip(v, u);
  }

  // ---------------------------------------------------------------------
  // Lists of items stored one after another.

  /** The bytes of xs, one item after another. */
  function Concat<T>(enc: T -> seq<byte>, xs: seq<T>): seq<byte>
  {
    if xs == [] then [] else Concat(enc, xs[..|xs| - 1]) + enc(xs[|xs| - 1])
  }

  function MapSeq<T, U>(f: T -> U, xs: seq<T>): (r: seq<U>)
    ensures |r| == |xs|
  {
    if xs == [] then [] else MapSeq(f, xs[..|xs| - 1]) + [f(xs[|xs| - 1])]
  }

  predicate AllOk<T>(ok: T -> bool, xs: seq<T>)
  {
    xs == [] || (AllOk(ok, xs[..|xs| - 1]) && ok(xs[|xs| - 1]))
  }

  /** n items read one after another, each by read. */
  function ReadCounted<T>(read: (seq<byte>, nat) -> Result<(T, nat)>, d: seq<byte>, p: nat, n: int,
                          acc: seq<T>): (r: Result<(seq<T>, nat)>)
    ensures r.Ok? ==> |r.value.0| == |acc| + (if n > 0 then n else 0) && r.value.0[..|acc|] == acc
    decreases if n > 0 then n else 0
  {
    if n <= 0 then Ok((acc, p))
    else
      var x :- read(d, p);
      ReadCounted(read, d, x.1, n - 1, acc + [x.0])
  }

  /** Reading one more item after n of them. */
  lemma {:induction false} ReadCountedSnoc<T>(read: (seq<byte>, nat) -> Result<(T, nat)>, d: seq<byte>, p: nat, n: nat,
                                              acc: seq<T>, xs: seq<T>, q: nat, x: T, r: nat)
    requires ReadCounted(read, d, p, n, acc) == Ok((xs, q))
    requires read(d, q) == Ok((x, r))
    ensures ReadCounted(read, d, p, n + 1, acc) == Ok((xs + [x], r))
    decreases n
  {
    if n > 0 {
      var y := read(d, p).value;
      ReadCountedSnoc(read, d, y.1, n - 1, acc + [y.0], xs, q, x, r);
    }
  }

  /** read gives back out(x) for every item x that passes ok, wherever its
      bytes enc(x) sit. */
  ghost predicate ReadsEach<T(!new), U>(read: (seq<byte>, nat) -> Result<(U, nat)>, enc: T -> seq<byte>, ok: T -> bool,
                                  out: T -> U)
  {
    forall x: T, d: seq<byte>, q: nat {:trigger Stored(d, q, enc(x))} ::
      ok(x) && Stored(d, q, enc(x)) ==> read(d, q) == Ok((out(x), q + |enc(x)|))
  }

  /** A reader that reads back each item reads back the whole list. */
  lemma {:induction false} ReadAll<T(!new), U>(read: (seq<byte>, nat) -> Result<(U, nat)>, enc: T -> seq<byte>,
                                         ok: T -> bool, out: T -> U, d: seq<byte>, p: nat, xs: seq<T>)
    requires ReadsEach(read, enc, ok, out) && AllOk(ok, xs)
    requires Stored(d, p, Concat(enc, xs))
    ensures ReadCounted(read, d, p, |xs|, []) == Ok((MapSeq(out, xs), p + |Concat(enc, xs)|))
    decreases |xs|
  {
    if xs != [] {
      var init, last := xs[..|xs| - 1], xs[|xs| - 1];
      var a, b := Concat(enc, init), enc(last);
      StoredSplit(d, p, a, b);
      ReadAll(read, enc, ok, out, d, p, init);
      ReadCountedSnoc(read, d, p, |init|, [], MapSeq(out, init), p + |a|, out(last), p + |a| + |b|);
    }
  }
}
