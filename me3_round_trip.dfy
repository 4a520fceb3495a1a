/** What ME3 Load reads back from the sections Save writes: the header, the
    string table, the Huffman nodes, the tree and the compressed values,
    each at any position of the stream. */
module ME3RoundTrip {
  import opened Wrappers
  import opened Primitives
  import opened ByteCodec
  import opened StringCodec
  import opened Crc32
  import opened Sorting
  import opened Formats
  import opened FormatDetection
  import opened Document
  import opened HuffmanDecompression
  import opened ME3Layout

  // ---------------------------------------------------------------------
  // Words at a position.

  lemma {:induction false} IntAt(d: seq<byte>, q: nat, v: int32)
    requires Stored(d, q, Int32Bytes(v))
    ensures ReadInt32At(d, q) == Ok((v, q + 4))
  {
    StoredSlice(d, q, Int32Bytes(v));
    ReadInt32Of(d, q, v);
  }

  /** A uint read gives back the 32-bit pattern of whatever int was written. */
  lemma {:induction false} UIntAt(d: seq<byte>, q: nat, x: int)
    requires Stored(d, q, Int32Bytes(x))
    ensures ReadUInt32At(d, q) == Ok((Bits32(x), q + 4))
  {
    var b := Int32Bytes(x);
    StoredSlice(d, q, b);
    assert d[q] == b[0] && d[q + 1] == b[1] && d[q + 2] == b[2] && d[q + 3] == b[3];
    UInt32BytesRoundTrip(Bits32(x));
  }

  /** A uint read gives back a value that fits in a uint. */
  lemma {:induction false} UIntOfAt(d: seq<byte>, q: nat, u: uint32)
    requires Stored(d, q, Int32Bytes(u))
    ensures ReadUInt32At(d, q) == Ok((u, q + 4))
  {
    UIntAt(d, q, u);
    assert Bits32(u) == u;
  }

  lemma {:induction false} UShortAt(d: seq<byte>, q: nat, u: uint16)
    requires Stored(d, q, UInt16Bytes(u))
    ensures ReadUInt16At(d, q) == Ok((u, q + 2))
  {
    var b := UInt16Bytes(u);
    StoredSlice(d, q, b);
    assert d[q] == b[0] && d[q + 1] == b[1];
  }

  /** What is stored stays stored when the stream grows. */
  lemma {:induction false} StoredExtend(d: seq<byte>, q: nat, x: seq<byte>, e: seq<byte>)
    requires Stored(d, q, x)
    ensures Stored(d + e, q, x)
  {
    StoredSlice(d, q, x);
    StoredSlice(d + e, q, x);
    assert (d + e)[q..q + |x|] == d[q..q + |x|];
  }

  /** Item k of a list sits after the items before it. */
  lemma {:induction false} ConcatStoredAt<T>(enc: T -> seq<byte>, xs: seq<T>, k: nat)
    requires k < |xs|
    ensures Stored(Concat(enc, xs), |Concat(enc, xs[..k])|, enc(xs[k]))
    decreases |xs|
  {
    var init := xs[..|xs| - 1];
    if k == |xs| - 1 {
      assert xs[..k] == init;
      StoredWhole(Concat(enc, init), enc(xs[k]), []);
      assert Concat(enc, init) + enc(xs[k]) + [] == Concat(enc, xs);
    } else {
      ConcatStoredAt(enc, init, k);
      assert init[..k] == xs[..k] && init[k] == xs[k];
      StoredExtend(Concat(enc, init), |Concat(enc, init[..k])|, enc(init[k]), enc(xs[|xs| - 1]));
    }
  }

  // ---------------------------------------------------------------------
  // The header.

  lemma {:induction false} CountsAt(d: seq<byte>, p: nat, h: FileHeader)
    requires HeaderFits(h) && Stored(d, p, CountsBytes(h))
    ensures ReadCountsAt(d, p) == Ok((h, p + 24))
  {
    var w0, w1, w2 := Int32Bytes(h.maxFieldNameLength), Int32Bytes(h.maxFieldValueLength), Int32Bytes(h.stringSectionLength);
    var w3, w4, w5 := Int32Bytes(h.huffmanNodesLength), Int32Bytes(h.treeSectionLength), Int32Bytes(h.compressedDataLength);
    StoredSplit(d, p, w0 + w1 + w2 + w3 + w4, w5);
    StoredSplit(d, p, w0 + w1 + w2 + w3, w4);
    StoredSplit(d, p, w0 + w1 + w2, w3);
    StoredSplit3(d, p, w0, w1, w2);
    IntAt(d, p, h.maxFieldNameLength);
    IntAt(d, p + 4, h.maxFieldValueLength);
    IntAt(d, p + 8, h.stringSectionLength);
    IntAt(d, p + 12, h.huffmanNodesLength);
    IntAt(d, p + 16, h.treeSectionLength);
    UIntOfAt(d, p + 20, h.compressedDataLength);
    CountsFrom(d, p, h);
  }

  /** The six reads of ReadCountsAt, each at its place, give the header. */
  lemma {:induction false} CountsFrom(d: seq<byte>, p: nat, h: FileHeader)
    requires HeaderFits(h)
    requires ReadInt32At(d, p) == Ok((h.maxFieldNameLength, p + 4))
    requires ReadInt32At(d, p + 4) == Ok((h.maxFieldValueLength, p + 8))
    requires ReadInt32At(d, p + 8) == Ok((h.stringSectionLength, p + 12))
    requires ReadInt32At(d, p + 12) == Ok((h.huffmanNodesLength, p + 16))
    requires ReadInt32At(d, p + 16) == Ok((h.treeSectionLength, p + 20))
    requires ReadUInt32At(d, p + 20) == Ok((h.compressedDataLength, p + 24))
    ensures ReadCountsAt(d, p) == Ok((h, p + 24))
  {
  }

  lemma {:induction false} HeaderAt(d: seq<byte>, p: nat, h: FileHeader)
    requires HeaderFits(h) && Stored(d, p, HeaderBytes(h))
    ensures ReadHeaderAt(d, p) == Ok((h, p + 32))
  {
    StoredSplit3(d, p, Int32Bytes(ME3Signature), Int32Bytes(Version), CountsBytes(h));
    IntAt(d, p, ME3Signature);
    IntAt(d, p + 4, Version);
    CountsAt(d, p + 8, h);
  }

  /** ReadHeader inverts WriteHeader: the counts come back, and the stream
      is taken for ME3 by the format detector. */
  lemma {:induction false} HeaderRoundTrip(pre: seq<byte>, h: FileHeader, rest: seq<byte>)
    requires HeaderFits(h)
    ensures ReadHeaderAt(pre + HeaderBytes(h) + rest, |pre|) == Ok((h, |pre| + 32))
    ensures Detect(Some(HeaderBytes(h) + rest)) == CoalescedME3LE
  {
    StoredWhole(pre, HeaderBytes(h), rest);
    HeaderAt(pre + HeaderBytes(h) + rest, |pre|, h);
    StoredWhole([], HeaderBytes(h), rest);
    assert [] + HeaderBytes(h) + rest == HeaderBytes(h) + rest;
    HeaderAt(HeaderBytes(h) + rest, 0, h);
    DetectME3(HeaderBytes(h) + rest);
  }

  // ---------------------------------------------------------------------
  // The Huffman nodes.

  predicate Fits32(x: int)
  {
    -0x8000_0000 <= x < 0x8000_0000
  }

  /** An int read gives back every value that fits in an int. */
  lemma {:induction false} IntsReadBack()
    ensures ReadsEach(ReadInt32At, Int32Bytes, Fits32, Wrap32)
  {
    forall x: int, d: seq<byte>, q: nat | Fits32(x) && Stored(d, q, Int32Bytes(x))
      ensures ReadInt32At(d, q) == Ok((Wrap32(x), q + |Int32Bytes(x)|))
    {
      WrapInRange(x);
      IntAt(d, q, x);
    }
  }

  lemma {:induction false} NodesFit(nodes: seq<int>)
    requires forall i :: 0 <= i < |nodes| ==> Fits32(nodes[i])
    ensures AllOk(Fits32, nodes) && MapSeq(Wrap32, nodes) == nodes
    decreases |nodes|
  {
    if nodes != [] {
      NodesFit(nodes[..|nodes| - 1]);
      WrapInRange(nodes[|nodes| - 1]);
    }
  }

  lemma {:induction false} NodesAt(d: seq<byte>, p: nat, nodes: seq<int>)
    requires |nodes| % 2 == 0 && |nodes| < 2 * 0x1_0000
    requires forall i :: 0 <= i < |nodes| ==> Fits32(nodes[i])
    requires Stored(d, p, NodesBytes(nodes))
    ensures ReadNodesAt(d, p) == Ok((nodes, p + |NodesBytes(nodes)|))
  {
    var half := |nodes| / 2;
    var count, slots := UInt16Bytes(half % 0x1_0000), Concat(Int32Bytes, nodes);
    StoredSplit(d, p, count, slots);
    UShortAt(d, p, half);
    IntsReadBack();
    NodesFit(nodes);
    ReadAll(ReadInt32At, Int32Bytes, Fits32, Wrap32, d, p + 2, nodes);
    NodesFrom(d, p, nodes, half, p + 2 + |slots|);
  }

  lemma {:induction false} NodesFrom(d: seq<byte>, p: nat, nodes: seq<int>, half: nat, after: nat)
    requires half == |nodes| / 2 && |nodes| % 2 == 0 && after == p + 2 + |Concat(Int32Bytes, nodes)|
    requires ReadUInt16At(d, p) == Ok((half, p + 2))
    requires ReadCounted(ReadInt32At, d, p + 2, |nodes|, []) == Ok((MapSeq(Wrap32, nodes), after))
    requires MapSeq(Wrap32, nodes) == nodes
    ensures ReadNodesAt(d, p) == Ok((nodes, p + |NodesBytes(nodes)|))
  {
    assert 2 * half == |nodes|;
  }

  /** ReadHuffmanNodes inverts WriteHuffmanNodes on an even number of
      slots, fewer than 65,536 pairs. */
  lemma {:induction false} NodesRoundTrip(pre: seq<byte>, nodes: seq<int>, rest: seq<byte>)
    requires |nodes| % 2 == 0 && |nodes| < 2 * 0x1_0000
    requires forall i :: 0 <= i < |nodes| ==> Fits32(nodes[i])
    ensures ReadNodesAt(pre + NodesBytes(nodes) + rest, |pre|) == Ok((nodes, |pre| + |NodesBytes(nodes)|))
  {
    StoredWhole(pre, NodesBytes(nodes), rest);
    NodesAt(pre + NodesBytes(nodes) + rest, |pre|, nodes);
  }

  // ---------------------------------------------------------------------
  // The string table.

  /** What the table can hold and read back: at most 65,535 lower-case,
      distinct names of one-byte chars, each shorter than 65,536 chars,
      the whole table within an int. */
  predicate TableStorable(names: seq<Str>)
  {
    |names| <= 0xFFFF && Distinct(names)
    && (forall i :: 0 <= i < |names| ==> Narrow(names[i]) && |names[i]| < 0x1_0000 && ToLower(names[i]) == names[i])
    && 8 * |names| + |NamesBytes(names)| + 8 < 0x8000_0000
  }

  lemma {:induction false} EntryOf(names: seq<Str>, base: int, k: nat)
    requires k < |names|
    ensures Entries(names, base)[k] == IndexEntryFor(names[..k], names[k], base)
    decreases |names|, 1
  {
    if k < |names| - 1 {
      EntryOfInit(names, base, k);
    } else {
      EntryOfLast(names, base);
    }
  }

  lemma {:induction false} EntryOfInit(names: seq<Str>, base: int, k: nat)
    requires k < |names| - 1
    ensures Entries(names, base)[k] == IndexEntryFor(names[..k], names[k], base)
    decreases |names|, 0
  {
    var init := names[..|names| - 1];
    EntryOf(init, base, k);
    assert init[..k] == names[..k];
  }

  lemma {:induction false} EntryOfLast(names: seq<Str>, base: int)
    requires |names| > 0
    ensures Entries(names, base)[|names| - 1] == IndexEntryFor(names[..|names| - 1], names[|names| - 1], base)
  {
  }

  /** Reading one more index entry. */
  lemma {:induction false} ReadIndexSnoc(d: seq<byte>, p: nat, m: nat, size: nat, acc: seq<IndexEntry>,
                                         es: seq<IndexEntry>, q: nat, crc: uint32, offset: uint32)
    requires ReadIndexAt(d, p, m, size, acc) == Ok((es, q))
    requires ReadUInt32At(d, q) == Ok((crc, q + 4)) && ReadUInt32At(d, q + 4) == Ok((offset, q + 8))
    requires 2 * (|acc| + m) < size
    ensures ReadIndexAt(d, p, m + 1, size, acc) == Ok((es + [IndexEntry(crc, offset)], q + 8))
    decreases m
  {
    if m > 0 {
      var c := ReadUInt32At(d, p).value;
      var o := ReadUInt32At(d, c.1).value;
      ReadIndexSnoc(d, o.1, m - 1, size, acc + [IndexEntry(c.0, o.0)], es, q, crc, offset);
    }
  }

  lemma {:induction false} EntryAt(d: seq<byte>, q: nat, e: IndexEntry)
    requires Stored(d, q, EntryBytes(e))
    ensures ReadUInt32At(d, q) == Ok((e.crc, q + 4)) && ReadUInt32At(d, q + 4) == Ok((e.offset, q + 8))
  {
    StoredSplit(d, q, UInt32Bytes(e.crc), UInt32Bytes(e.offset));
    assert Bits32(e.crc) == e.crc && Bits32(e.offset) == e.offset;
    UIntAt(d, q, e.crc);
    UIntAt(d, q + 4, e.offset);
  }

  lemma {:induction false} EntriesLength(es: seq<IndexEntry>)
    ensures |Concat(EntryBytes, es)| == 8 * |es|
    decreases |es|
  {
    if es != [] {
      EntriesLength(es[..|es| - 1]);
    }
  }

  /** The index loop reads back the entries written. */
  lemma {:induction false} IndexAt(d: seq<byte>, p: nat, es: seq<IndexEntry>, size: nat)
    requires 2 * |es| <= size && Stored(d, p, Concat(EntryBytes, es))
    ensures ReadIndexAt(d, p, |es|, size, []) == Ok((es, p + 8 * |es|))
    decreases |es|
  {
    if es != [] {
      var init, last := es[..|es| - 1], es[|es| - 1];
      var a := Concat(EntryBytes, init);
      EntriesLength(init);
      StoredSplit(d, p, a, EntryBytes(last));
      IndexAt(d, p, init, size);
      EntryAt(d, p + |a|, last);
      ReadIndexSnoc(d, p, |init|, size, [], init, p + |a|, last.crc, last.offset);
      assert init + [last] == es;
    }
  }

  /** The length and the chars of a non-empty name in the string area. */
  lemma {:induction false} NamePieces(area: seq<byte>, rel: nat, s: Str)
    requires 0 < |s| < 0x1_0000 && Stored(area, rel, EncodeME3(s))
    ensures rel + 2 + |s| <= |area| && DecodeUInt16(area[rel], area[rel + 1]) == |s|
    ensures area[rel + 2..rel + 2 + |s|] == LowBytes(s)
  {
    var h, l := UInt16Bytes(|s|), LowBytes(s);
    assert EncodeME3(s) == h + l;
    StoredSplit(area, rel, h, l);
    StoredSlice(area, rel, h);
    StoredSlice(area, rel + 2, l);
    assert area[rel] == h[0] && area[rel + 1] == h[1];
  }

  lemma {:induction false} NameOfPieces(area: seq<byte>, rel: nat, s: Str)
    requires Narrow(s) && rel + 2 + |s| <= |area| && DecodeUInt16(area[rel], area[rel + 1]) == |s|
    requires area[rel + 2..rel + 2 + |s|] == LowBytes(s)
    ensures NameAt(area, rel) == Ok(s)
  {
    NameAtOf(area, rel, |s|, LowBytes(s));
    WidenLowBytes(s);
  }

  lemma {:induction false} NameAtOf(area: seq<byte>, rel: nat, length: nat, chars: seq<byte>)
    requires rel + 2 + length <= |area| && DecodeUInt16(area[rel], area[rel + 1]) == length
    requires area[rel + 2..rel + 2 + length] == chars
    ensures NameAt(area, rel) == Ok(Widen(chars))
  {
  }

  /** A name reads back from the string area where WriteME3String put it. */
  lemma {:induction false} NameAtStored(area: seq<byte>, rel: nat, s: Str)
    requires Narrow(s) && |s| < 0x1_0000 && Stored(area, rel, EncodeME3(s))
    ensures NameAt(area, rel) == Ok(s)
  {
    if |s| == 0 {
      StoredSlice(area, rel, EncodeME3(s));
      assert area[rel] == 0 && area[rel + 1] == 0;
    } else {
      NamePieces(area, rel, s);
      NameOfPieces(area, rel, s);
    }
  }

  /** A lower-case name not yet in the table is appended. */
  lemma {:induction false} AddNew(names: seq<Str>, k: nat)
    requires TableStorable(names) && k < |names|
    ensures AddName(names[..k], names[k]) == Ok(names[..k + 1])
  {
    assert names[k] !in names[..k];
    assert names[..k] + [names[k]] == names[..k + 1];
  }

  /** An offset less the index size is the offset into the string area. */
  lemma {:induction false} OffsetInArea(offset: int, indexLength: int, base: nat, rel: nat)
    requires base + rel < 0x1_0000_0000
    requires offset == Bits32(base + rel) && indexLength == Bits32(base)
    ensures Bits32(offset - indexLength) == rel
  {
  }

  /** Entry k's offset less the index size is where name k starts in the
      string area. */
  lemma {:induction false} EntryOffset(names: seq<Str>, k: nat)
    requires k < |names| && 8 * |names| + |NamesBytes(names)| < 0x1_0000_0000
    ensures AreaOffset(Entries(names, 8 * |names|)[k], Bits32(8 * |names|)) == |NamesBytes(names[..k])|
    ensures Entries(names, 8 * |names|)[k].crc == Crc(names[k])
  {
    var base, rel := 8 * |names|, |NamesBytes(names[..k])|;
    EntryOf(names, base, k);
    NamesPrefix(names, k);
    var e := Entries(names, base)[k];
    assert e.offset == Bits32(base + rel);
    OffsetInArea(e.offset, Bits32(base), base, rel);
    assert Bits32(e.offset - Bits32(base)) == rel;
  }

  /** Entry k of the index points at name k and carries its CRC. */
  lemma {:induction false} NameEntry(names: seq<Str>, k: nat)
    requires k < |names| && Narrow(names[k]) && |names[k]| < 0x1_0000
    requires 8 * |names| + |NamesBytes(names)| < 0x1_0000_0000
    ensures NameAt(NamesBytes(names), AreaOffset(Entries(names, 8 * |names|)[k], Bits32(8 * |names|))) == Ok(names[k])
    ensures Crc(names[k]) == Entries(names, 8 * |names|)[k].crc
  {
    EntryOffset(names, k);
    ConcatStoredAt(EncodeME3, names, k);
    NameAtStored(NamesBytes(names), |NamesBytes(names[..k])|, names[k]);
  }

  /** One pass of the name loop finds name k and adds it. */
  lemma {:induction false} NameStep(names: seq<Str>, k: nat)
    requires TableStorable(names) && k < |names|
    ensures ReadNames(NamesBytes(names), Entries(names, 8 * |names|), Bits32(8 * |names|), k, names[..k])
         == ReadNames(NamesBytes(names), Entries(names, 8 * |names|), Bits32(8 * |names|), k + 1, names[..k + 1])
  {
    EntryReadBack(names, k);
  }

  /** Entry k of the index gives back name k and adds it. */
  lemma {:induction false} EntryReadBack(names: seq<Str>, k: nat)
    requires TableStorable(names) && k < |names|
    ensures ReadEntry(NamesBytes(names), Entries(names, 8 * |names|)[k], Bits32(8 * |names|), names[..k]) == Ok(names[..k + 1])
  {
    NameEntry(names, k);
    AddNew(names, k);
    EntryReads(NamesBytes(names), Entries(names, 8 * |names|)[k], Bits32(8 * |names|), names[..k], names[k], names[..k + 1]);
  }

  /** An entry whose name is found with the right CRC and is new adds it. */
  lemma {:induction false} EntryReads(area: seq<byte>, e: IndexEntry, indexLength: uint32, prior: seq<Str>, s: Str, next: seq<Str>)
    requires NameAt(area, AreaOffset(e, indexLength)) == Ok(s) && Crc(s) == e.crc
    requires AddName(prior, s) == Ok(next)
    ensures ReadEntry(area, e, indexLength, prior) == Ok(next)
  {
  }

  /** The name loop of ReadStringTable, from entry k on, rebuilds the table. */
  lemma {:induction false} NamesFrom(names: seq<Str>, k: nat)
    requires TableStorable(names) && k <= |names|
    ensures ReadNames(NamesBytes(names), Entries(names, 8 * |names|), Bits32(8 * |names|), k, names[..k]) == Ok(names)
    decreases |names| - k
  {
    if k < |names| {
      NameStep(names, k);
      NamesFrom(names, k + 1);
    } else {
      assert names[..k] == names;
    }
  }

  /** The names before entry k take no more room than all of them. */
  lemma {:induction false} NamesPrefix(names: seq<Str>, k: nat)
    requires k <= |names|
    ensures |NamesBytes(names[..k])| <= |NamesBytes(names)|
    decreases |names|
  {
    if k < |names| {
      NamesPrefix(names[..|names| - 1], k);
      assert names[..|names| - 1][..k] == names[..k];
    } else {
      assert names[..k] == names;
    }
  }

  lemma {:induction false} SmallBits(n: nat)
    requires n <= 0xFFFF
    ensures Bits32(n) == n && Bits32(2 * n) == 2 * n && Bits32(8 * n) == 8 * n
  {
  }

  /** Where the pieces of a written table lie, within the bounds the reader
      needs. */
  predicate TablePlaced(d: seq<byte>, p: nat, names: seq<Str>)
  {
    |names| <= 0xFFFF && TableLength(names) < 0x8000_0000
    && Stored(d, p, Int32Bytes(TableLength(names))) && Stored(d, p + 4, Int32Bytes(|names|))
    && Stored(d, p + 8, IndexBytes(names, 8 * |names|))
    && Stored(d, p + 8 + 8 * |names|, NamesBytes(names))
  }

  /** The name loop reads back the names. */
  predicate NamesReadBack(names: seq<Str>)
  {
    ReadNames(NamesBytes(names), Entries(names, 8 * |names|), Bits32(8 * |names|), 0, []) == Ok(names)
  }

  lemma {:induction false} TableSplit(d: seq<byte>, p: nat, names: seq<Str>)
    requires |names| <= 0xFFFF && TableLength(names) < 0x8000_0000
    requires Stored(d, p, StringTableBytes(names))
    ensures TablePlaced(d, p, names) && |StringTableBytes(names)| == TableLength(names)
  {
    var index, area := IndexBytes(names, 8 * |names|), NamesBytes(names);
    EntriesLength(Entries(names, 8 * |names|));
    TableParts(names);
    StoredSplit(d, p, Int32Bytes(TableLength(names)) + Int32Bytes(|names|) + index, area);
    StoredSplit3(d, p, Int32Bytes(TableLength(names)), Int32Bytes(|names|), index);
  }

  lemma {:induction false} TableParts(names: seq<Str>)
    ensures StringTableBytes(names)
      == Int32Bytes(TableLength(names)) + Int32Bytes(|names|) + IndexBytes(names, 8 * |names|) + NamesBytes(names)
  {
    EntriesLength(Entries(names, 8 * |names|));
  }

  /** The two words ahead of the index, then where the index and the area lie. */
  lemma {:induction false} TableWordsAt(d: seq<byte>, p: nat, names: seq<Str>)
    requires |names| <= 0xFFFF && TableLength(names) < 0x8000_0000
    requires Stored(d, p, Int32Bytes(TableLength(names))) && Stored(d, p + 4, Int32Bytes(|names|))
    ensures ReadInt32At(d, p) == Ok((TableLength(names), p + 4))
    ensures ReadUInt32At(d, p + 4) == Ok((|names|, p + 8))
  {
    IntAt(d, p, TableLength(names));
    UIntAt(d, p + 4, |names|);
    SmallBits(|names|);
  }

  /** The index, after the two words. */
  lemma {:induction false} TableIndexAt(d: seq<byte>, p: nat, names: seq<Str>, q: nat)
    requires |names| <= 0xFFFF && q == p + 8 + 8 * |names|
    requires Stored(d, p + 8, IndexBytes(names, 8 * |names|))
    ensures ReadIndexAt(d, p + 8, |names|, Bits32(2 * |names|), []) == Ok((Entries(names, 8 * |names|), q))
  {
    SmallBits(|names|);
    IndexAt(d, p + 8, Entries(names, 8 * |names|), 2 * |names|);
  }

  /** A written table is as long as its table length says. */
  lemma {:induction false} TableSize(names: seq<Str>)
    ensures |StringTableBytes(names)| == TableLength(names)
  {
    TableParts(names);
    EntriesLength(Entries(names, 8 * |names|));
  }

  /** Bytes stored at q are what ReadBytes of their length reads. */
  lemma {:induction false} BytesAt(d: seq<byte>, q: nat, n: int, x: seq<byte>, e: nat)
    requires Stored(d, q, x) && n == |x| && e == q + |x|
    ensures ReadBytesAt(d, q, n) == Ok((x, e))
  {
    StoredSlice(d, q, x);
  }

  /** The area's bytes, after the index, end where the table ends. */
  lemma {:induction false} AreaBytesAt(d: seq<byte>, p: nat, names: seq<Str>, q: nat)
    requires |names| <= 0xFFFF && TableLength(names) < 0x8000_0000 && q == p + 8 + 8 * |names|
    requires Stored(d, q, NamesBytes(names))
    ensures ReadBytesAt(d, q, TableLength(names) - Bits32(8 * |names|) - 8)
      == Ok((NamesBytes(names), p + |StringTableBytes(names)|))
  {
    SmallBits(|names|);
    TableSize(names);
    BytesAt(d, q, TableLength(names) - Bits32(8 * |names|) - 8, NamesBytes(names), p + |StringTableBytes(names)|);
  }

  /** The area and its names. */
  lemma {:induction false} AreaAt(d: seq<byte>, p: nat, names: seq<Str>, q: nat)
    requires |names| <= 0xFFFF && TableLength(names) < 0x8000_0000
    requires ReadBytesAt(d, q, TableLength(names) - Bits32(8 * |names|) - 8)
      == Ok((NamesBytes(names), p + |StringTableBytes(names)|))
    requires NamesReadBack(names)
    ensures ReadAreaAt(d, q, TableLength(names), |names|, Entries(names, 8 * |names|))
      == Ok((names, p + |StringTableBytes(names)|))
  {
  }

  /** ReadStringTable, once its two words and its index are read, reads
      the area. */
  lemma {:induction false} TableRead(d: seq<byte>, p: nat, n: uint32, length: int32, es: seq<IndexEntry>, q: nat)
    requires ReadInt32At(d, p) == Ok((length, p + 4)) && ReadUInt32At(d, p + 4) == Ok((n, p + 8))
    requires ReadIndexAt(d, p + 8, n, Bits32(2 * n), []) == Ok((es, q))
    ensures ReadStringTableAt(d, p) == ReadAreaAt(d, q, length, n, es)
  {
  }

  /** The two words and the index of a written table. */
  lemma {:induction false} TableHeadAt(d: seq<byte>, p: nat, names: seq<Str>, q: nat)
    requires |names| <= 0xFFFF && TableLength(names) < 0x8000_0000 && Stored(d, p, StringTableBytes(names))
    requires q == p + 8 + 8 * |names|
    ensures ReadStringTableAt(d, p) == ReadAreaAt(d, q, TableLength(names), |names|, Entries(names, 8 * |names|))
  {
    TableSplit(d, p, names);
    TableWordsAt(d, p, names);
    TableIndexAt(d, p, names, q);
    TableRead(d, p, |names|, TableLength(names), Entries(names, 8 * |names|), q);
  }

  /** The area of a written table and its names, read up to the table's end. */
  lemma {:induction false} TableAreaAt(d: seq<byte>, p: nat, names: seq<Str>, q: nat)
    requires TableStorable(names) && Stored(d, p, StringTableBytes(names)) && q == p + 8 + 8 * |names|
    ensures ReadAreaAt(d, q, TableLength(names), |names|, Entries(names, 8 * |names|))
      == Ok((names, p + |StringTableBytes(names)|))
  {
    TableReadsNames(names);
    TableSplit(d, p, names);
    AreaBytesAt(d, p, names, q);
    AreaAt(d, p, names, q);
  }

  /** ReadStringTable reads back a table WriteStringTable wrote, from any
      stream that holds it at p, and stops at its end. */
  lemma {:induction false} StringTableRoundTrip(d: seq<byte>, p: nat, names: seq<Str>)
    requires TableStorable(names) && Stored(d, p, StringTableBytes(names))
    ensures ReadStringTableAt(d, p) == Ok((names, p + |StringTableBytes(names)|))
  {
    var q := p + 8 + 8 * |names|;
    TableHeadAt(d, p, names, q);
    TableAreaAt(d, p, names, q);
  }

  /** The name loop reads back every name of a table that can be written. */
  lemma {:induction false} TableReadsNames(names: seq<Str>)
    requires TableStorable(names)
    ensures NamesReadBack(names)
  {
    NamesFrom(names, 0);
    assert names[..0] == [];
  }
}
