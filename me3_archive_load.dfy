/** ME3 Load reads back what Save wrote: every file, section and field
    comes back in order with its name lower-cased by the string table, and
    every value comes back decoded from the Huffman bits. */
module ME3ArchiveLoad {
  import opened Wrappers
  import opened Primitives
  import opened ByteCodec
  import opened Sorting
  import opened FormatDetection
  import opened Document
  import opened HuffmanTree
  import opened HuffmanBits
  import opened HuffmanCompression
  import opened HuffmanDecompression
  import opened HuffmanRoundTrip
  import opened ME3Layout
  import opened ME3RoundTrip
  import opened ME3ArchiveRoundTrip
  import ME3Writing
  import StringCodec

  // ---------------------------------------------------------------------
  // What Load gives back: the files with their names as the table holds
  // them.

  function LowerField(f: CoalField): CoalField
  {
    CoalField(ToLower(f.name), f.values)
  }

  function LowerSection(s: CoalSection): CoalSection
  {
    CoalSection(ToLower(s.name), MapSeq(LowerField, s.fields))
  }

  function LowerFile(fl: CoalFile): CoalFile
  {
    CoalFile(ToLower(fl.fileName), MapSeq(LowerSection, fl.sections))
  }

  /** The files with every file, section and field name lower-cased. */
  function Lowered(files: seq<CoalFile>): seq<CoalFile>
  {
    MapSeq(LowerFile, files)
  }

  // ---------------------------------------------------------------------
  // The node slots fit what WriteHuffmanNodes writes.

  /** The ints 0 .. n - 1. */
  function Below(n: nat): (s: set<int>)
    ensures |s| == n && forall x :: x in s <==> 0 <= x < n
  {
    if n == 0 then {} else Below(n - 1) + {n - 1}
  }

  /** The members of a list. */
  function Elems<T>(s: seq<T>): set<T>
  {
    set x | x in s
  }

  /** A list without repeats has as many members as entries. */
  lemma {:induction false} DistinctSize<T>(s: seq<T>)
    requires Distinct(s)
    ensures |Elems(s)| == |s|
    decreases |s|
  {
    if s != [] {
      var init, last := s[..|s| - 1], s[|s| - 1];
      forall i, j | 0 <= i < j < |init|
        ensures init[i] != init[j]
      {
        assert init[i] == s[i] && init[j] == s[j];
      }
      DistinctSize(init);
      assert s == init + [last];
      assert Elems(s) == Elems(init) + {last};
    }
  }

  lemma {:induction false} SubsetSize<T>(a: set<T>, b: set<T>)
    requires a <= b
    ensures |a| <= |b|
    decreases |a|
  {
    if a != {} {
      var x :| x in a;
      SubsetSize(a - {x}, b - {x});
    }
  }

  /** A tree with distinct leaves has at most one leaf per char. */
  lemma {:induction false} LeavesBound(root: Node)
    requires Distinct(Leaves(root))
    ensures |Leaves(root)| <= 0x1_0000
  {
    var cs := Leaves(root);
    DistinctSize(cs);
    var present := Elems(cs);
    assert present <= Below(0x1_0000) by {
      forall x | x in present
        ensures x in Below(0x1_0000)
      {
        assert 0 <= x < 0x1_0000;
      }
    }
    SubsetSize(present, Below(0x1_0000));
  }

  /** Every entry of a lies in [lo, hi). */
  predicate Within(a: seq<int>, lo: int, hi: int)
  {
    forall i :: 0 <= i < |a| ==> lo <= a[i] < hi
  }

  lemma {:induction false} WithinJoin(a: seq<int>, b: seq<int>, lo: int, hi: int)
    requires Within(a, lo, hi) && Within(b, lo, hi)
    ensures Within(a + b, lo, hi)
  {
    forall i | 0 <= i < |a + b|
      ensures lo <= (a + b)[i] < hi
    {
      if i >= |a| {
        assert (a + b)[i] == b[i - |a|];
      }
    }
  }

  /** Every slot of the flat array is a leaf's -1 - char or the index of
      an inner node numbered from base. */
  lemma {:induction false} FlattenRange(n: Node, base: nat)
    ensures Within(Flatten(n, base), -0x1_0000, base + Inners(n))
  {
    match n
    case Leaf(_, _) =>
    case Inner(_, l, r) =>
      var hi := base + Inners(n);
      FlattenRange(l, base);
      FlattenRange(r, base + Inners(l));
      var left, right := Flatten(l, base), Flatten(r, base + Inners(l));
      assert Within(left, -0x1_0000, hi);
      assert Within(right, -0x1_0000, hi);
      assert Within([Slot(l, base), Slot(r, base + Inners(l))], -0x1_0000, hi);
      WithinJoin(left, right, -0x1_0000, hi);
      WithinJoin(left + right, [Slot(l, base), Slot(r, base + Inners(l))], -0x1_0000, hi);
  }

  /** The slots of a tree with distinct leaves are an even number of ints,
      fewer than 65,536 pairs: WriteHuffmanNodes' ushort count holds them. */
  lemma {:induction false} SlotsFit(root: Node)
    requires Distinct(Leaves(root))
    ensures |Flatten(root, 0)| % 2 == 0 && |Flatten(root, 0)| < 2 * 0x1_0000
    ensures forall i :: 0 <= i < |Flatten(root, 0)| ==> Fits32(Flatten(root, 0)[i])
  {
    LeavesBound(root);
    LeavesInners(root);
    FlattenRange(root, 0);
  }

  // ---------------------------------------------------------------------
  // Every value of the files is a key of the compressor.

  lemma {:induction false} ValueKeysCover(keys: seq<Str>, values: seq<Str>)
    ensures forall v :: v in keys ==> v in ValueKeys(keys, values)
    ensures forall v :: v in values ==> v in ValueKeys(keys, values)
    decreases |values|
  {
    if values != [] {
      var init := values[..|values| - 1];
      ValueKeysCover(keys, init);
      assert values == init + [values[|values| - 1]];
    }
  }

  lemma {:induction false} FieldKeysCover(keys: seq<Str>, fields: seq<CoalField>)
    ensures forall v :: v in keys ==> v in FieldKeys(keys, fields)
    ensures forall f, v :: f in fields && v in f.values ==> v in FieldKeys(keys, fields)
    decreases |fields|
  {
    if fields != [] {
      var init := fields[..|fields| - 1];
      FieldKeysCover(keys, init);
      ValueKeysCover(FieldKeys(keys, init), fields[|fields| - 1].values);
      assert fields == init + [fields[|fields| - 1]];
    }
  }

  lemma {:induction false} SectionKeysCover(keys: seq<Str>, sections: seq<CoalSection>)
    ensures forall v :: v in keys ==> v in SectionKeys(keys, sections)
    ensures forall s, f, v :: s in sections && f in s.fields && v in f.values ==> v in SectionKeys(keys, sections)
    decreases |sections|
  {
    if sections != [] {
      var init := sections[..|sections| - 1];
      SectionKeysCover(keys, init);
      FieldKeysCover(SectionKeys(keys, init), sections[|sections| - 1].fields);
      assert sections == init + [sections[|sections| - 1]];
    }
  }

  /** Compress is given every value of every field of every file. */
  lemma {:induction false} FileKeysCover(keys: seq<Str>, files: seq<CoalFile>)
    ensures forall v :: v in keys ==> v in FileKeys(keys, files)
    ensures forall fl, s, f, v :: fl in files && s in fl.sections && f in s.fields && v in f.values
                                ==> v in FileKeys(keys, files)
    decreases |files|
  {
    if files != [] {
      var init := files[..|files| - 1];
      FileKeysCover(keys, init);
      SectionKeysCover(FileKeys(keys, init), files[|files| - 1].sections);
      assert files == init + [files[|files| - 1]];
    }
  }

  // ---------------------------------------------------------------------
  // Every value decodes from its word.

  /** Load gets the value v back from the word written for it. */
  predicate Decodes(nodes: seq<int>, data: seq<byte>, positions: map<Str, int>, v: Str)
  {
    v in positions && DecodeWord(nodes, data, TagWord(positions[v])) == Ok(v)
  }

  /** A position below 2^28 keeps its bits under the Type_String tag. */
  lemma {:induction false} TagWordOf(position: int)
    requires 0 <= position < 0x1000_0000
    ensures TagWord(position) % 0x1000_0000 == position && TagWord(position) / 0x1000_0000 == TypeString
  {
    assert Bits32(position) == position;
    assert position / 0x4000_0000 == 0;
  }

  /** A string's recorded position lies within the packed bits. */
  lemma {:induction false} PositionBound(keys: seq<Str>, codes: map<Char16, ChainCode>, data: seq<byte>, k: nat)
    requires Covers(codes, keys) && k < |keys| && data == Pack(AllBits(codes, keys))
    ensures HuffmanCompression.Start(codes, keys, k) <= 8 * |data|
  {
    StringSlice(codes, keys, k);
    PackLength(AllBits(codes, keys));
  }

  /** Every key without NUL decodes from its word when the packed bits are
      short enough for every position to fit in 28 bits. */
  lemma {:induction false} KeysDecode(keys: seq<Str>, positions: map<Str, int>, nodes: seq<int>,
                                      codes: map<Char16, ChainCode>, data: seq<byte>, queue: seq<Node>, root: Node)
    requires Compressed(keys, positions, nodes, codes, data, queue, root) && Height(root) <= 32
    requires (forall v :: v in keys ==> NUL !in v) && |data| < 0x200_0000
    ensures forall v :: v in keys ==> Decodes(nodes, data, positions, v)
  {
    forall v | v in keys
      ensures Decodes(nodes, data, positions, v)
    {
      var k :| 0 <= k < |keys| && keys[k] == v;
      RoundTrip(keys, positions, nodes, codes, data, queue, root, k);
      PositionBound(keys, codes, data, k);
      TagWordOf(positions[v]);
    }
  }

  lemma {:induction false} ValuesBack(nodes: seq<int>, data: seq<byte>, positions: map<Str, int>, values: seq<Str>)
    requires forall v :: v in values ==> Decodes(nodes, data, positions, v)
    ensures DecodeValues(nodes, data, Words(positions, values)) == Ok(values)
    decreases |values|
  {
    if values != [] {
      var init, last := values[..|values| - 1], values[|values| - 1];
      var ws := Words(positions, values);
      assert values == init + [last];
      assert last in values && Decodes(nodes, data, positions, last);
      assert ws == Words(positions, init) + [TagWord(positions[last])];
      assert ws[..|ws| - 1] == Words(positions, init);
      ValuesBack(nodes, data, positions, init);
      assert DecodeWord(nodes, data, ws[|ws| - 1]) == Ok(last);
    }
  }

  lemma {:induction false} FieldsBack(nodes: seq<int>, data: seq<byte>, positions: map<Str, int>, fields: seq<CoalField>)
    requires forall f, v :: f in fields && v in f.values ==> Decodes(nodes, data, positions, v)
    ensures DecodeFields(nodes, data, MapSeq(FieldWords(positions), fields)) == Ok(MapSeq(LowerField, fields))
    decreases |fields|
  {
    if fields != [] {
      var init, last := fields[..|fields| - 1], fields[|fields| - 1];
      var ws := MapSeq(FieldWords(positions), fields);
      assert fields == init + [last];
      assert ws[..|ws| - 1] == MapSeq(FieldWords(positions), init);
      FieldsBack(nodes, data, positions, init);
      ValuesBack(nodes, data, positions, last.values);
    }
  }

  lemma {:induction false} SectionsBack(nodes: seq<int>, data: seq<byte>, positions: map<Str, int>,
                                        sections: seq<CoalSection>)
    requires forall s, f, v :: s in sections && f in s.fields && v in f.values ==> Decodes(nodes, data, positions, v)
    ensures DecodeSections(nodes, data, MapSeq(SectionWords(positions), sections)) == Ok(MapSeq(LowerSection, sections))
    decreases |sections|
  {
    if sections != [] {
      var init, last := sections[..|sections| - 1], sections[|sections| - 1];
      var ws := MapSeq(SectionWords(positions), sections);
      assert sections == init + [last];
      assert ws[..|ws| - 1] == MapSeq(SectionWords(positions), init);
      SectionsBack(nodes, data, positions, init);
      FieldsBack(nodes, data, positions, last.fields);
    }
  }

  /** ReadCompressedData's loop turns the tree ReadTree left back into the
      files, once every value decodes. */
  lemma {:induction false} FilesBack(nodes: seq<int>, data: seq<byte>, positions: map<Str, int>, files: seq<CoalFile>)
    requires forall fl, s, f, v :: fl in files && s in fl.sections && f in s.fields && v in f.values
                                 ==> Decodes(nodes, data, positions, v)
    ensures DecodeFiles(nodes, data, TreeWords(positions, files)) == Ok(Lowered(files))
    decreases |files|
  {
    if files != [] {
      var init, last := files[..|files| - 1], files[|files| - 1];
      var ws := TreeWords(positions, files);
      assert files == init + [last];
      assert ws[..|ws| - 1] == TreeWords(positions, init);
      FilesBack(nodes, data, positions, init);
      SectionsBack(nodes, data, positions, last.sections);
    }
  }

  /** The values of the files written with Compress's positions and bits
      decode back to the files. */
  lemma {:induction false} FilesDecoded(files: seq<CoalFile>, positions: map<Str, int>, nodes: seq<int>,
                                        codes: map<Char16, ChainCode>, data: seq<byte>, queue: seq<Node>, root: Node)
    requires Compressed(FileKeys([], files), positions, nodes, codes, data, queue, root) && Height(root) <= 32
    requires (forall v :: v in FileKeys([], files) ==> NUL !in v) && |data| < 0x200_0000
    ensures DecodeFiles(nodes, data, TreeWords(positions, files)) == Ok(Lowered(files))
  {
    KeysDecode(FileKeys([], files), positions, nodes, codes, data, queue, root);
    FileKeysCover([], files);
    FilesBack(nodes, data, positions, files);
  }

  // ---------------------------------------------------------------------
  // The pieces of the archive, each read where the one before ends.

  /** Where Save puts its five pieces: the header at 0, the string table
      at 32, then the nodes at a, the tree at b and the data at c. */
  lemma {:induction false} Pieces(d: seq<byte>, hb: seq<byte>, t: seq<byte>, nb: seq<byte>, tr: seq<byte>,
                                  db: seq<byte>, a: nat, b: nat, c: nat)
    requires d == hb + t + nb + tr + db && |hb| == 32
    requires a == 32 + |t| && b == a + |nb| && c == b + |tr|
    ensures Stored(d, 0, hb) && Stored(d, 32, t) && Stored(d, a, nb) && Stored(d, b, tr) && Stored(d, c, db)
  {
    StoredWhole([], hb, t + nb + tr + db);
    assert [] + hb + (t + nb + tr + db) == d;
    StoredWhole(hb, t, nb + tr + db);
    assert hb + t + (nb + tr + db) == d;
    StoredWhole(hb + t, nb, tr + db);
    assert hb + t + nb + (tr + db) == d;
    StoredWhole(hb + t + nb, tr, db);
    StoredWhole(hb + t + nb + tr, db, []);
    assert hb + t + nb + tr + db + [] == d;
  }

  /** ReadHeader accepts the header WriteHeader wrote and reads back the
      compressed data length; the other counts are read and not used. */
  lemma {:induction false} CountsRead(d: seq<byte>, p: nat, h: FileHeader)
    requires Stored(d, p, CountsBytes(h)) && 0 <= h.compressedDataLength < 0x1_0000_0000
    ensures ReadCountsAt(d, p).Ok? && ReadCountsAt(d, p).value.0.compressedDataLength == h.compressedDataLength
  {
    var w0, w1, w2 := Int32Bytes(h.maxFieldNameLength), Int32Bytes(h.maxFieldValueLength), Int32Bytes(h.stringSectionLength);
    var w3, w4, w5 := Int32Bytes(h.huffmanNodesLength), Int32Bytes(h.treeSectionLength), Int32Bytes(h.compressedDataLength);
    StoredSplit(d, p, w0 + w1 + w2 + w3 + w4, w5);
    UIntOfAt(d, p + 20, h.compressedDataLength);
  }

  lemma {:induction false} HeaderRead(d: seq<byte>, h: FileHeader)
    requires Stored(d, 0, HeaderBytes(h)) && 0 <= h.compressedDataLength < 0x1_0000_0000
    ensures ReadHeaderAt(d, 0).Ok? && ReadHeaderAt(d, 0).value.1 == 32
    ensures ReadHeaderAt(d, 0).value.0.compressedDataLength == h.compressedDataLength
  {
    StoredSplit3(d, 0, Int32Bytes(ME3Signature), Int32Bytes(Version), CountsBytes(h));
    IntAt(d, 0, ME3Signature);
    IntAt(d, 4, Version);
    CountsRead(d, 8, h);
  }

  /** ReadCompressedData's reads: the dropped count, then the bytes. */
  lemma {:induction false} DataAt(d: seq<byte>, q: nat, data: seq<byte>)
    requires |data| < 0x8000_0000 && Stored(d, q, DataBytes(data))
    ensures ReadDataAt(d, q, |data|) == Ok((data, q + |DataBytes(data)|))
  {
    StoredSplit(d, q, Int32Bytes(|data|), data);
    UIntAt(d, q, |data|);
    WrapInRange(|data|);
    BytesAt(d, q + 4, |data|, data, q + |DataBytes(data)|);
  }

  /** Load once the header is read. */
  lemma {:induction false} LoadBack(d: seq<byte>, length: uint32, result: seq<CoalFile>)
    requires ReadHeaderAt(d, 0).Ok? && ReadHeaderAt(d, 0).value.1 == 32
    requires ReadHeaderAt(d, 0).value.0.compressedDataLength == length
    requires ReadPartsAt(d, 32, length) == Ok(result)
    ensures LoadBytes(d) == Ok(result)
  {
  }

  /** ReadCompressedData once the data is read. */
  lemma {:induction false} DataBack(nodes: seq<int>, tw: seq<WordFile>, d: seq<byte>, q: nat, length: uint32,
                                    data: seq<byte>, e: nat, result: seq<CoalFile>)
    requires ReadDataAt(d, q, length) == Ok((data, e))
    requires DecodeFiles(nodes, data, tw) == Ok(result)
    ensures DecodeDataAt(nodes, tw, d, q, length) == Ok(result)
  {
  }

  /** The three reads after the header, each where the one before stopped. */
  lemma {:induction false} PartsBack(d: seq<byte>, p: nat, names: seq<Str>, nodes: seq<int>, tw: seq<WordFile>,
                                     a: nat, b: nat, c: nat, length: uint32, result: seq<CoalFile>)
    requires ReadStringTableAt(d, p).Ok? && ReadStringTableAt(d, p).value.0 == names
    requires ReadStringTableAt(d, p).value.1 == a
    requires ReadNodesAt(d, a).Ok? && ReadNodesAt(d, a).value.0 == nodes && ReadNodesAt(d, a).value.1 == b
    requires ReadTreeAt(names, d, b).Ok? && ReadTreeAt(names, d, b).value.0 == tw && ReadTreeAt(names, d, b).value.1 == c
    requires DecodeDataAt(nodes, tw, d, c, length) == Ok(result)
    ensures ReadPartsAt(d, p, length) == Ok(result)
  {
  }

  lemma {:induction false} DataRead(nodes: seq<int>, tw: seq<WordFile>, d: seq<byte>, p: nat, data: seq<byte>,
                                    db: seq<byte>, result: seq<CoalFile>)
    requires |data| < 0x8000_0000 && db == DataBytes(data) && Stored(d, p, db)
    requires DecodeFiles(nodes, data, tw) == Ok(result)
    ensures DecodeDataAt(nodes, tw, d, p, |data|) == Ok(result)
  {
    DataAt(d, p, data);
    DataBack(nodes, tw, d, p, |data|, data, p + |db|, result);
  }

  /** The string table, the nodes, the tree and the data, written one
      after the other from byte 32, read back as the files. */
  lemma {:induction false} PartsRead(names: seq<Str>, ids: map<Str, int>, positions: map<Str, int>, nodes: seq<int>,
                                     data: seq<byte>, files: seq<CoalFile>, d: seq<byte>,
                                     t: seq<byte>, nb: seq<byte>, tr: seq<byte>, db: seq<byte>, a: nat, b: nat, c: nat)
    requires TableStorable(names) && TreeFits(names, ids, files)
    requires |nodes| % 2 == 0 && |nodes| < 2 * 0x1_0000 && forall i :: 0 <= i < |nodes| ==> Fits32(nodes[i])
    requires |data| < 0x8000_0000
    requires t == StringTableBytes(names) && nb == NodesBytes(nodes)
    requires tr == TreeBytes(ids, positions, files) && db == DataBytes(data)
    requires a == 32 + |t| && b == a + |nb| && c == b + |tr|
    requires Stored(d, 32, t) && Stored(d, a, nb) && Stored(d, b, tr) && Stored(d, c, db)
    requires DecodeFiles(nodes, data, TreeWords(positions, files)) == Ok(Lowered(files))
    ensures ReadPartsAt(d, 32, |data|) == Ok(Lowered(files))
  {
    var tw := TreeWords(positions, files);
    StringTableRoundTrip(d, 32, names);
    NodesAt(d, a, nodes);
    TreeRoundTrip(names, ids, positions, files, d, b, tr);
    DataRead(nodes, tw, d, c, data, db, Lowered(files));
    PartsBack(d, 32, names, nodes, tw, a, b, c, |data|, Lowered(files));
  }

  /** Load reads back what Save wrote: the files with every name
      lower-cased. The table holds every name (lower-case, distinct, one
      byte per char), the ids name them, Compress packed every value of
      the files, no value holds NUL, the Huffman tree is no deeper than 32
      and the packed bits are short enough for 28-bit positions. */
  lemma {:induction false} LoadSaved(names: seq<Str>, ids: map<Str, int>, positions: map<Str, int>, nodes: seq<int>,
                                     codes: map<Char16, ChainCode>, data: seq<byte>, queue: seq<Node>, root: Node,
                                     files: seq<CoalFile>)
    requires TableStorable(names) && TreeFits(names, ids, files)
    requires Compressed(FileKeys([], files), positions, nodes, codes, data, queue, root) && Height(root) <= 32
    requires (forall v :: v in FileKeys([], files) ==> NUL !in v) && |data| < 0x200_0000
    ensures LoadBytes(SaveBytes(names, ids, nodes, positions, data, files)) == Ok(Lowered(files))
  {
    var t, tr := StringTableBytes(names), TreeBytes(ids, positions, files);
    var h := SaveHeader(t, nodes, tr, data, files);
    var nb, db := NodesBytes(nodes), DataBytes(data);
    var d := SaveBytes(names, ids, nodes, positions, data, files);
    var a := 32 + |t|;
    var b := a + |nb|;
    var c := b + |tr|;
    Pieces(d, HeaderBytes(h), t, nb, tr, db, a, b, c);
    HeaderRead(d, h);
    SlotsFit(root);
    FilesDecoded(files, positions, nodes, codes, data, queue, root);
    PartsRead(names, ids, positions, nodes, data, files, d, t, nb, tr, db, a, b, c);
    LoadBack(d, |data|, Lowered(files));
  }
  // ---------------------------------------------------------------------
  // What Save hands to the loader.

  /** A name the table and the tree can hold: one-byte chars, and fewer
      than 65,536 of them. */
  predicate NameFits(name: Str)
  {
    StringCodec.Narrow(name) && |name| < 0x1_0000
  }

  /** Every name of the document fits, and every count fits in the ushort
      WriteTree writes it as. */
  predicate NamesFit(files: seq<CoalFile>)
  {
    |files| < 0x1_0000
    && forall fl :: fl in files ==>
         NameFits(fl.fileName) && |fl.sections| < 0x1_0000
         && forall s :: s in fl.sections ==>
              NameFits(s.name) && |s.fields| < 0x1_0000
              && forall f :: f in s.fields ==> NameFits(f.name) && |f.values| < 0x1_0000
  }

  /** What StringTable.Add keeps: at most 65,535 names, none twice. */
  predicate FewDistinct(names: seq<Str>)
  {
    |names| <= 0xFFFF && Distinct(names)
  }

  lemma AddNameKeeps(names: seq<Str>, s: Str)
    requires FewDistinct(names) && AddName(names, s).Ok?
    ensures FewDistinct(AddName(names, s).value)
  {
    var lower := ToLower(s);
    if lower !in names {
      var r := names + [lower];
      forall i, j | 0 <= i < j < |r|
        ensures r[i] != r[j]
      {
        if j == |names| {
          assert r[i] == names[i];
        }
      }
    }
  }

  lemma {:induction false} FieldNamesKeep(names: seq<Str>, fields: seq<CoalField>)
    requires FewDistinct(names) && AddFieldNames(names, fields).Ok?
    ensures FewDistinct(AddFieldNames(names, fields).value)
    decreases |fields|
  {
    if fields != [] {
      var init := fields[..|fields| - 1];
      FieldNamesKeep(names, init);
      AddNameKeeps(AddFieldNames(names, init).value, fields[|fields| - 1].name);
    }
  }

  lemma {:induction false} SectionNamesKeep(names: seq<Str>, sections: seq<CoalSection>)
    requires FewDistinct(names) && AddSectionNames(names, sections).Ok?
    ensures FewDistinct(AddSectionNames(names, sections).value)
    decreases |sections|
  {
    if sections != [] {
      var init, last := sections[..|sections| - 1], sections[|sections| - 1];
      SectionNamesKeep(names, init);
      var before := AddSectionNames(names, init).value;
      AddNameKeeps(before, last.name);
      FieldNamesKeep(AddName(before, last.name).value, last.fields);
    }
  }

  /** The first walk of WriteTree leaves at most 65,535 names, none twice. */
  lemma {:induction false} FileNamesKeep(names: seq<Str>, files: seq<CoalFile>)
    requires FewDistinct(names) && AddFileNames(names, files).Ok?
    ensures FewDistinct(AddFileNames(names, files).value)
    decreases |files|
  {
    if files != [] {
      var init, last := files[..|files| - 1], files[|files| - 1];
      FileNamesKeep(names, init);
      var before := AddFileNames(names, init).value;
      AddNameKeeps(before, last.fileName);
      SectionNamesKeep(AddName(before, last.fileName).value, last.sections);
    }
  }

  /** A lower-cased name that fits still fits, and is its own lower case. */
  lemma LoweredFits(name: Str)
    requires NameFits(name)
    ensures NameFits(ToLower(name)) && ToLower(ToLower(name)) == ToLower(name)
  {
    ToLowerIdempotent(name);
  }

  /** Every name the first walk adds to the table holding "" fits and is
      its own lower case. */
  lemma {:induction false} AddedFit(files: seq<CoalFile>)
    requires AddFileNames([[]], files).Ok? && NamesFit(files)
    ensures forall x :: x in AddFileNames([[]], files).value ==> NameFits(x) && ToLower(x) == x
  {
    ME3Writing.FileNamesHold([[]], files);
    forall x | x in AddFileNames([[]], files).value
      ensures NameFits(x) && ToLower(x) == x
    {
      if x != [] {
        assert x !in [[]];
        if fl :| fl in files && x == ToLower(fl.fileName) {
          LoweredFits(fl.fileName);
        } else if fl, s :| fl in files && s in fl.sections && x == ToLower(s.name) {
          LoweredFits(s.name);
        } else {
          var fl, s, f :| fl in files && s in fl.sections && f in s.fields && x == ToLower(f.name);
          LoweredFits(f.name);
        }
      }
    }
  }

  /** The table Save sorts, with the ids StringTable keeps for it, meets
      the hypotheses of LoadSaved on the table and the tree, as long as the
      names fit and the table is shorter than 2^31 bytes. */
  lemma {:induction false} SavedTableFits(names: seq<Str>, ids: map<Str, int>, files: seq<CoalFile>)
    requires AddFileNames([[]], files).Ok? && multiset(names) == multiset(AddFileNames([[]], files).value)
    requires forall i :: 0 <= i < |names| ==> names[i] in ids && ids[names[i]] == i
    requires NamesFit(files) && TableLength(names) < 0x8000_0000
    ensures TableStorable(names) && TreeFits(names, ids, files)
  {
    var added := AddFileNames([[]], files).value;
    FileNamesKeep([[]], files);
    AddedFit(files);
    PermutationDistinct(added, names);
    assert |names| == |multiset(names)| == |added|;
    forall i | 0 <= i < |names|
      ensures NameFits(names[i]) && ToLower(names[i]) == names[i]
    {
      assert names[i] in multiset(added);
    }
    SavedNamesKnown(names, ids, files);
  }

  /** Every name of the document is known to the saved table. */
  lemma SavedNamesKnown(names: seq<Str>, ids: map<Str, int>, files: seq<CoalFile>)
    requires AddFileNames([[]], files).Ok? && multiset(names) == multiset(AddFileNames([[]], files).value)
    requires forall i :: 0 <= i < |names| ==> names[i] in ids && ids[names[i]] == i
    requires NamesFit(files) && |names| <= 0xFFFF
    ensures TreeFits(names, ids, files)
  {
    var added := AddFileNames([[]], files).value;
    ME3Writing.FileNamesHold([[]], files);
    forall name | ToLower(name) in added
      ensures Knows(names, ids, name)
    {
      assert ToLower(name) in multiset(names);
      var i :| 0 <= i < |names| && names[i] == ToLower(name);
    }
  }

  /** Save then Load, for a document whose names fit: what ME3Converter.Save
      writes loads back as the document with its names lower-cased. */
  lemma {:induction false} SaveThenLoad(names: seq<Str>, ids: map<Str, int>, positions: map<Str, int>, nodes: seq<int>,
                                        codes: map<Char16, ChainCode>, data: seq<byte>, queue: seq<Node>, root: Node,
                                        files: seq<CoalFile>)
    requires AddFileNames([[]], files).Ok? && multiset(names) == multiset(AddFileNames([[]], files).value)
    requires forall i :: 0 <= i < |names| ==> names[i] in ids && ids[names[i]] == i
    requires NamesFit(files) && TableLength(names) < 0x8000_0000
    requires Compressed(FileKeys([], files), positions, nodes, codes, data, queue, root) && Height(root) <= 32
    requires (forall v :: v in FileKeys([], files) ==> NUL !in v) && |data| < 0x200_0000
    ensures LoadBytes(SaveBytes(names, ids, nodes, positions, data, files)) == Ok(Lowered(files))
  {
    SavedTableFits(names, ids, files);
    LoadSaved(names, ids, positions, nodes, codes, data, queue, root, files);
  }
}
