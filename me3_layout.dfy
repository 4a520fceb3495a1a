/** The ME3 archive as ME3Converter lays it out: a header of eight words,
    the string table (an index of CRC and offset pairs, then the names in
    the ME3 string layout), the Huffman node pairs, the tree of files,
    sections and fields whose values are words pointing into the compressed
    bits, and the compressed bits themselves. The writers are byte
    sequences; the readers are cursor functions that fail the way Load
    does. */
module ME3Layout {
  import opened Wrappers
  import opened Primitives
  import opened ByteCodec
  import opened StringCodec
  import opened Crc32
  import opened FormatDetection
  import opened Document
  import opened HuffmanDecompression

  // ---------------------------------------------------------------------
  // The header.

  /** The six counts after the signature and the version, as WriteHeader
      computes them (WriteInt stores any int as its 32-bit pattern). */
  datatype FileHeader = FileHeader(maxFieldNameLength: int, maxFieldValueLength: int, stringSectionLength: int,
                                   huffmanNodesLength: int, treeSectionLength: int, compressedDataLength: int)

  const Version: int32 := 1

  /** Counts ReadHeader reads back unchanged: five ints and a uint. */
  predicate HeaderFits(h: FileHeader)
  {
    -0x8000_0000 <= h.maxFieldNameLength < 0x8000_0000 && -0x8000_0000 <= h.maxFieldValueLength < 0x8000_0000
    && -0x8000_0000 <= h.stringSectionLength < 0x8000_0000 && -0x8000_0000 <= h.huffmanNodesLength < 0x8000_0000
    && -0x8000_0000 <= h.treeSectionLength < 0x8000_0000 && 0 <= h.compressedDataLength < 0x1_0000_0000
  }

  /** The six counts as WriteHeader writes them. */
  function CountsBytes(h: FileHeader): (b: seq<byte>)
    ensures |b| == 24
  {
    Int32Bytes(h.maxFieldNameLength) + Int32Bytes(h.maxFieldValueLength) + Int32Bytes(h.stringSectionLength)
    + Int32Bytes(h.huffmanNodesLength) + Int32Bytes(h.treeSectionLength) + Int32Bytes(h.compressedDataLength)
  }

  /** WriteHeader's eight words: the signature, version 1, then the counts. */
  function HeaderBytes(h: FileHeader): (b: seq<byte>)
    ensures |b| == 32
  {
    Int32Bytes(ME3Signature) + Int32Bytes(Version) + CountsBytes(h)
  }

  /** Five ints, then the compressed data length as a uint. */
  function ReadCountsAt(d: seq<byte>, p: nat): (r: Result<(FileHeader, nat)>)
    ensures r.Ok? ==> HeaderFits(r.value.0) && r.value.1 == p + 24 <= |d|
  {
    var a :- ReadInt32At(d, p);
    var b :- ReadInt32At(d, a.1);
    var c :- ReadInt32At(d, b.1);
    var e :- ReadInt32At(d, c.1);
    var f :- ReadInt32At(d, e.1);
    var g :- ReadUInt32At(d, f.1);
    Ok((FileHeader(a.0, b.0, c.0, e.0, f.0, g.0), g.1))
  }

  /** ReadHeader: the signature must be ME3Signature and the version 1, or
      CoalescedReadException is raised; then the counts. */
  function ReadHeaderAt(d: seq<byte>, p: nat): (r: Result<(FileHeader, nat)>)
    ensures r.Ok? ==> ReadInt32At(d, p) == Ok((ME3Signature, p + 4)) && ReadInt32At(d, p + 4) == Ok((Version, p + 8))
    ensures r.Ok? ==> HeaderFits(r.value.0) && r.value.1 == p + 32 <= |d|
  {
    var sig :- ReadInt32At(d, p);
    if sig.0 != ME3Signature then Err(CoalescedRead(BadSignature))
    else
      var version :- ReadInt32At(d, sig.1);
      if version.0 != Version then Err(CoalescedRead(BadVersion(version.0)))
      else ReadCountsAt(d, version.1)
  }

  // ---------------------------------------------------------------------
  // The string table.

  /** `Crc32.Hash` of a name, as the uint the index holds. */
  function Crc(s: Str): uint32
  {
    HashOf(s) as int
  }

  /** The string area: each name in the ME3 string layout. */
  function NamesBytes(names: seq<Str>): seq<byte>
  {
    Concat(EncodeME3, names)
  }

  datatype IndexEntry = IndexEntry(crc: uint32, offset: uint32)

  /** The index entries: per name its CRC and the offset of its bytes,
      which start base bytes into the index (WriteInt keeps the offset's
      32-bit pattern). */
  function Entries(names: seq<Str>, base: int): (r: seq<IndexEntry>)
    ensures |r| == |names|
  {
    if names == [] then []
    else
      var init := names[..|names| - 1];
      Entries(init, base) + [IndexEntryFor(init, names[|names| - 1], base)]
  }

  /** The entry of name s when the names before it are before. */
  function IndexEntryFor(before: seq<Str>, s: Str, base: int): IndexEntry
  {
    IndexEntry(Crc(s), Bits32(base + |NamesBytes(before)|))
  }

  function EntryBytes(e: IndexEntry): seq<byte>
  {
    UInt32Bytes(e.crc) + UInt32Bytes(e.offset)
  }

  function IndexBytes(names: seq<Str>, base: int): seq<byte>
  {
    Concat(EntryBytes, Entries(names, base))
  }

  /** WriteStringTable: the table length (index, names and these two
      words), the name count, the index, then the names; the first name's
      offset is the index size. */
  function StringTableBytes(names: seq<Str>): seq<byte>
  {
    var index, area := IndexBytes(names, 8 * |names|), NamesBytes(names);
    Int32Bytes(|index| + |area| + 8) + Int32Bytes(|names|) + index + area
  }

  /** The table length WriteStringTable computes: the index, the names and
      the two words ahead of them. */
  function TableLength(names: seq<Str>): int
  {
    8 * |names| + |NamesBytes(names)| + 8
  }

  /** The index loop, left more entries into `new uint[numStrings * 2]`,
      whose size wraps to size: an entry past the array's end faults once
      its CRC is read. */
  function ReadIndexAt(d: seq<byte>, p: nat, left: nat, size: nat, acc: seq<IndexEntry>)
    : (r: Result<(seq<IndexEntry>, nat)>)
    ensures r.Ok? ==> |r.value.0| == |acc| + left
    decreases left
  {
    if left == 0 then Ok((acc, p))
    else
      var crc :- ReadUInt32At(d, p);
      if 2 * |acc| >= size then Err(IndexOutOfRange)
      else
        var offset :- ReadUInt32At(d, crc.1);
        ReadIndexAt(d, offset.1, left - 1, size, acc + [IndexEntry(crc.0, offset.0)])
  }

  /** A name in the string area at rel: a two-byte unsigned length, then
      one byte per char; a byte outside the area is an index fault. */
  function NameAt(area: seq<byte>, rel: nat): (r: Result<Str>)
    ensures r.Ok? ==> rel + 2 + |r.value| <= |area| && Narrow(r.value)
  {
    if rel + 2 > |area| then Err(IndexOutOfRange)
    else
      var length := DecodeUInt16(area[rel], area[rel + 1]);
      if rel + 2 + length > |area| then Err(IndexOutOfRange)
      else Ok(Widen(area[rel + 2..rel + 2 + length]))
  }

  /** StringTable.Add on the list of names: a name is kept lower-cased and
      once; the 65,536th distinct name raises TooManyStringsException. */
  function AddName(names: seq<Str>, s: Str): (r: Result<seq<Str>>)
    ensures r.Ok? ==> ToLower(s) in r.value && forall x :: x in names ==> x in r.value
    ensures r.Ok? ==> forall x :: x in r.value ==> x in names || x == ToLower(s)
    ensures r.Err? ==> r.error == TooManyStrings
  {
    var lower := ToLower(s);
    if lower in names then Ok(names)
    else if |names| + 1 > 0xFFFF then Err(TooManyStrings)
    else Ok(names + [lower])
  }

  /** One pass of the name loop: the entry's name lies at its offset less
      the index size (uint arithmetic), must hash to its CRC, and is added
      to the table. */
  function ReadEntry(area: seq<byte>, e: IndexEntry, indexLength: uint32, names: seq<Str>): Result<seq<Str>>
  {
    var s :- CheckedName(area, e, indexLength);
    AddName(names, s)
  }

  /** Where the entry's name starts in the string area: its offset less
      the index size, in uint arithmetic. */
  function AreaOffset(e: IndexEntry, indexLength: uint32): uint32
  {
    Bits32(e.offset - indexLength)
  }

  /** The entry's name, if it hashes to the entry's CRC. */
  function CheckedName(area: seq<byte>, e: IndexEntry, indexLength: uint32): Result<Str>
  {
    var s :- NameAt(area, AreaOffset(e, indexLength));
    if Crc(s) != e.crc then Err(CoalescedRead(CrcMismatch(e.crc, Crc(s)))) else Ok(s)
  }

  /** The name loop, from entry k on. */
  function ReadNames(area: seq<byte>, index: seq<IndexEntry>, indexLength: uint32, k: nat, names: seq<Str>)
    : Result<seq<Str>>
    requires k <= |index|
    decreases |index| - k
  {
    if k == |index| then Ok(names)
    else
      var next :- ReadEntry(area, index[k], indexLength, names);
      ReadNames(area, index, indexLength, k + 1, next)
  }

  /** ReadStringTable: the table length and the name count, the index,
      then the area and its names. */
  function ReadStringTableAt(d: seq<byte>, p: nat): Result<(seq<Str>, nat)>
  {
    var tableLength :- ReadInt32At(d, p);
    var numStrings :- ReadUInt32At(d, tableLength.1);
    var index :- ReadIndexAt(d, numStrings.1, numStrings.0, Bits32(2 * numStrings.0), []);
    ReadAreaAt(d, index.1, tableLength.0, numStrings.0, index.0)
  }

  /** The rest of ReadStringTable: the area is the table length less the
      index size (uint arithmetic) less 8, and a negative size cannot be
      allocated; then the names of the index. */
  function ReadAreaAt(d: seq<byte>, p: nat, tableLength: int32, numStrings: uint32, index: seq<IndexEntry>)
    : Result<(seq<Str>, nat)>
  {
    var area :- ReadBytesAt(d, p, tableLength - Bits32(8 * numStrings) - 8);
    var names :- ReadNames(area.0, index, Bits32(8 * numStrings), 0, []);
    Ok((names, area.1))
  }

  // ---------------------------------------------------------------------
  // The Huffman nodes.

  /** WriteHuffmanNodes: the pair count as a ushort, then every slot. */
  function NodesBytes(nodes: seq<int>): seq<byte>
  {
    UInt16Bytes((|nodes| / 2) % 0x1_0000) + Concat(Int32Bytes, nodes)
  }

  /** ReadHuffmanNodes: a ushort pair count, then two ints per pair. */
  function ReadNodesAt(d: seq<byte>, p: nat): (r: Result<(seq<int32>, nat)>)
    ensures r.Ok? ==> |r.value.0| % 2 == 0 && |r.value.0| < 2 * 0x1_0000
  {
    var count :- ReadUInt16At(d, p);
    ReadCounted(ReadInt32At, d, count.1, 2 * count.0, [])
  }

  // ---------------------------------------------------------------------
  // The tree. Each level is a ushort count, then per item the id of its
  // name and the offset of its block, then the blocks; a field's block is
  // a ushort count and that many value words.

  /** `StringTable.GetId`: the id of the lower-cased name, truncated to 16
      bits; 0 when it is absent. */
  function IdOf(ids: map<Str, int>, name: Str): uint16
  {
    var lower := ToLower(name);
    if lower in ids then ids[lower] % 0x1_0000 else 0
  }

  /** The heads of a level whose first block starts base bytes in. */
  function Heads<T>(id: T -> uint16, enc: T -> seq<byte>, xs: seq<T>, base: int): (b: seq<byte>)
    ensures |b| == 6 * |xs|
  {
    if xs == [] then []
    else
      var init := xs[..|xs| - 1];
      Heads(id, enc, init, base) + UInt16Bytes(id(xs[|xs| - 1])) + Int32Bytes(base + |Concat(enc, init)|)
  }

  /** A level: the count, the heads (the blocks start after the count and
      the six-byte heads), then the blocks. */
  function Level<T>(id: T -> uint16, enc: T -> seq<byte>, xs: seq<T>): seq<byte>
  {
    UInt16Bytes(|xs| % 0x1_0000) + Heads(id, enc, xs, 6 * |xs| + 2) + Concat(enc, xs)
  }

  const TypeString: uint32 := 4

  /** `position | (Type_String << 28)` as the int WriteInt stores: the
      position's 32-bit pattern with bit 30 set. */
  function TagWord(position: int): uint32
  {
    var u := Bits32(position);
    if (u / 0x4000_0000) % 2 == 1 then u else u + 0x4000_0000
  }

  /** Each value's word: its bit position in the compressed data, tagged. */
  function Words(positions: map<Str, int>, values: seq<Str>): (r: seq<uint32>)
    ensures |r| == |values|
  {
    if values == [] then []
    else
      var v := values[|values| - 1];
      Words(positions, values[..|values| - 1]) + [TagWord(if v in positions then positions[v] else 0)]
  }

  /** A field's block: its value count, then a word per value (WriteInt
      stores the word's 32-bit pattern). */
  function WordsBytes(words: seq<uint32>): seq<byte>
  {
    UInt16Bytes(|words| % 0x1_0000) + Concat(UInt32Bytes, words)
  }

  function FieldBlock(positions: map<Str, int>): CoalField -> seq<byte>
  {
    (field: CoalField) => WordsBytes(Words(positions, field.values))
  }

  function FieldId(ids: map<Str, int>): CoalField -> uint16
  {
    (field: CoalField) => IdOf(ids, field.name)
  }

  function SectionBlock(ids: map<Str, int>, positions: map<Str, int>): CoalSection -> seq<byte>
  {
    (section: CoalSection) => Level(FieldId(ids), FieldBlock(positions), section.fields)
  }

  function SectionId(ids: map<Str, int>): CoalSection -> uint16
  {
    (section: CoalSection) => IdOf(ids, section.name)
  }

  function FileBlock(ids: map<Str, int>, positions: map<Str, int>): CoalFile -> seq<byte>
  {
    (file: CoalFile) => Level(SectionId(ids), SectionBlock(ids, positions), file.sections)
  }

  function FileId(ids: map<Str, int>): CoalFile -> uint16
  {
    (file: CoalFile) => IdOf(ids, file.fileName)
  }

  /** WriteTree's bytes, for the table's ids and the compressor's
      positions. */
  function TreeBytes(ids: map<Str, int>, positions: map<Str, int>, files: seq<CoalFile>): seq<byte>
  {
    Level(FileId(ids), FileBlock(ids, positions), files)
  }

  /** The tree as ReadTree leaves it: names looked up, values still words. */
  datatype WordField = WordField(name: Str, words: seq<uint32>)
  datatype WordSection = WordSection(name: Str, fields: seq<WordField>)
  datatype WordFile = WordFile(fileName: Str, sections: seq<WordSection>)

  /** `StringTable.GetString`: an id outside the table raises
      ArgumentOutOfRangeException. */
  function NameOf(names: seq<Str>, id: int): (r: Result<Str>)
    ensures r.Ok? <==> 0 <= id < |names|
    ensures r.Ok? ==> r.value == names[id]
  {
    if 0 <= id < |names| then Ok(names[id]) else Err(ArgumentOutOfRange)
  }

  /** One head: the id, its name, then the offset, which is read and
      dropped. */
  function ReadHeadAt(names: seq<Str>, d: seq<byte>, p: nat): Result<(Str, nat)>
  {
    var id :- ReadUInt16At(d, p);
    var name :- NameOf(names, id.0);
    var offset :- ReadUInt32At(d, id.1);
    Ok((name, offset.1))
  }

  function HeadReader(names: seq<Str>): (seq<byte>, nat) -> Result<(Str, nat)>
  {
    (d: seq<byte>, p: nat) => ReadHeadAt(names, d, p)
  }

  /** Each name joined with its block. */
  function Zip<B, U>(make: (Str, B) -> U, heads: seq<Str>, bodies: seq<B>): (r: seq<U>)
    requires |heads| == |bodies|
    ensures |r| == |heads|
  {
    if heads == [] then []
    else Zip(make, heads[..|heads| - 1], bodies[..|bodies| - 1]) + [make(heads[|heads| - 1], bodies[|bodies| - 1])]
  }

  /** A level of ReadTree: the count, that many heads, then as many
      blocks, each read by body. */
  function ReadLevelAt<B, U>(body: (seq<byte>, nat) -> Result<(B, nat)>, make: (Str, B) -> U, names: seq<Str>,
                             d: seq<byte>, p: nat): Result<(seq<U>, nat)>
  {
    var count :- ReadUInt16At(d, p);
    var heads :- ReadCounted(HeadReader(names), d, count.1, count.0, []);
    var bodies :- ReadCounted(body, d, heads.1, count.0, []);
    Ok((Zip(make, heads.0, bodies.0), bodies.1))
  }

  /** A field's block: the value count, then a uint per value. */
  function ReadWordsAt(d: seq<byte>, p: nat): Result<(seq<uint32>, nat)>
  {
    var count :- ReadUInt16At(d, p);
    ReadCounted(ReadUInt32At, d, count.1, count.0, [])
  }

  function MakeField(name: Str, words: seq<uint32>): WordField
  {
    WordField(name, words)
  }

  function MakeSection(name: Str, fields: seq<WordField>): WordSection
  {
    WordSection(name, fields)
  }

  function MakeFile(name: Str, sections: seq<WordSection>): WordFile
  {
    WordFile(name, sections)
  }

  function ReadFieldsAt(names: seq<Str>, d: seq<byte>, p: nat): Result<(seq<WordField>, nat)>
  {
    ReadLevelAt(ReadWordsAt, MakeField, names, d, p)
  }

  function FieldsReader(names: seq<Str>): (seq<byte>, nat) -> Result<(seq<WordField>, nat)>
  {
    (d: seq<byte>, p: nat) => ReadFieldsAt(names, d, p)
  }

  function ReadSectionsAt(names: seq<Str>, d: seq<byte>, p: nat): Result<(seq<WordSection>, nat)>
  {
    ReadLevelAt(FieldsReader(names), MakeSection, names, d, p)
  }

  function SectionsReader(names: seq<Str>): (seq<byte>, nat) -> Result<(seq<WordSection>, nat)>
  {
    (d: seq<byte>, p: nat) => ReadSectionsAt(names, d, p)
  }

  /** ReadTree: the file level, each file's section level, each section's
      field level, each field's words. */
  function ReadTreeAt(names: seq<Str>, d: seq<byte>, p: nat): Result<(seq<WordFile>, nat)>
  {
    ReadLevelAt(SectionsReader(names), MakeFile, names, d, p)
  }

  // ---------------------------------------------------------------------
  // The compressed data and the values.

  /** WriteCompressedData: the byte count, then the bytes. */
  function DataBytes(data: seq<byte>): seq<byte>
  {
    Int32Bytes(|data|) + data
  }

  /** ReadCompressedData's reads: a uint that is dropped, then as many
      bytes as the header's uint says, cast to int. */
  function ReadDataAt(d: seq<byte>, p: nat, length: uint32): Result<(seq<byte>, nat)>
  {
    var unk :- ReadUInt32At(d, p);
    ReadBytesAt(d, unk.1, Wrap32(length))
  }

  /** A value word: the string whose bits start at its low 28 bits; a high
      nibble other than Type_String raises UnsupportedValueType once the
      string is decoded. */
  function DecodeWord(nodes: seq<int>, data: seq<byte>, word: uint32): (r: Result<Str>)
    ensures r.Ok? ==> word / 0x1000_0000 == TypeString
  {
    var str :- Decode(nodes, data, word % 0x1000_0000);
    var tag := word / 0x1000_0000;
    if tag != TypeString then Err(UnsupportedValueType(tag)) else Ok(str)
  }

  function DecodeValues(nodes: seq<int>, data: seq<byte>, words: seq<uint32>): (r: Result<seq<Str>>)
    ensures r.Ok? ==> |r.value| == |words|
  {
    if words == [] then Ok([])
    else
      var init :- DecodeValues(nodes, data, words[..|words| - 1]);
      var last :- DecodeWord(nodes, data, words[|words| - 1]);
      Ok(init + [last])
  }

  function DecodeFields(nodes: seq<int>, data: seq<byte>, fields: seq<WordField>): (r: Result<seq<CoalField>>)
    ensures r.Ok? ==> |r.value| == |fields|
  {
    if fields == [] then Ok([])
    else
      var init :- DecodeFields(nodes, data, fields[..|fields| - 1]);
      var f := fields[|fields| - 1];
      var values :- DecodeValues(nodes, data, f.words);
      Ok(init + [CoalField(f.name, values)])
  }

  function DecodeSections(nodes: seq<int>, data: seq<byte>, sections: seq<WordSection>): (r: Result<seq<CoalSection>>)
    ensures r.Ok? ==> |r.value| == |sections|
  {
    if sections == [] then Ok([])
    else
      var init :- DecodeSections(nodes, data, sections[..|sections| - 1]);
      var s := sections[|sections| - 1];
      var fields :- DecodeFields(nodes, data, s.fields);
      Ok(init + [CoalSection(s.name, fields)])
  }

  /** ReadCompressedData's loop: every word replaced by its string, file
      by file, section by section, field by field. */
  function DecodeFiles(nodes: seq<int>, data: seq<byte>, files: seq<WordFile>): (r: Result<seq<CoalFile>>)
    ensures r.Ok? ==> |r.value| == |files|
  {
    if files == [] then Ok([])
    else
      var init :- DecodeFiles(nodes, data, files[..|files| - 1]);
      var f := files[|files| - 1];
      var sections :- DecodeSections(nodes, data, f.sections);
      Ok(init + [CoalFile(f.fileName, sections)])
  }

  // ---------------------------------------------------------------------
  // The whole archive.

  /** ReadCompressedData: the compressed bits, then every word of the
      tree decoded against them. */
  function DecodeDataAt(nodes: seq<int>, tree: seq<WordFile>, d: seq<byte>, p: nat, length: uint32): Result<seq<CoalFile>>
  {
    var data :- ReadDataAt(d, p, length);
    DecodeFiles(nodes, data.0, tree)
  }

  /** Load: header, string table, nodes, tree, then the compressed data,
      strictly in that order. */
  function LoadBytes(d: seq<byte>): Result<seq<CoalFile>>
  {
    var header :- ReadHeaderAt(d, 0);
    ReadPartsAt(d, header.1, header.0.compressedDataLength)
  }

  /** What Load reads after the header. */
  function ReadPartsAt(d: seq<byte>, p: nat, length: uint32): Result<seq<CoalFile>>
  {
    var names :- ReadStringTableAt(d, p);
    var nodes :- ReadNodesAt(d, names.1);
    var tree :- ReadTreeAt(names.0, d, nodes.1);
    DecodeDataAt(nodes.0, tree.0, d, tree.1, length)
  }

  /** `if (x > max) max = x`. */
  function Max(m: int, x: int): int
  {
    if x > m then x else m
  }

  // ---------------------------------------------------------------------
  // What WriteTree gathers before it sorts and compresses.

  /** `_strings.Add` for each field name, in order. */
  function AddFieldNames(names: seq<Str>, fields: seq<CoalField>): (r: Result<seq<Str>>)
    ensures r.Err? ==> r.error == TooManyStrings
  {
    if fields == [] then Ok(names)
    else
      var init :- AddFieldNames(names, fields[..|fields| - 1]);
      AddName(init, fields[|fields| - 1].name)
  }

  /** Each section's name, then its field names. */
  function AddSectionNames(names: seq<Str>, sections: seq<CoalSection>): (r: Result<seq<Str>>)
    ensures r.Err? ==> r.error == TooManyStrings
  {
    if sections == [] then Ok(names)
    else
      var init :- AddSectionNames(names, sections[..|sections| - 1]);
      var s := sections[|sections| - 1];
      var named :- AddName(init, s.name);
      AddFieldNames(named, s.fields)
  }

  /** Each file's name, then its sections' names: the first name the table
      cannot take stops the walk with TooManyStrings. */
  function AddFileNames(names: seq<Str>, files: seq<CoalFile>): (r: Result<seq<Str>>)
    ensures r.Err? ==> r.error == TooManyStrings
  {
    if files == [] then Ok(names)
    else
      var init :- AddFileNames(names, files[..|files| - 1]);
      var f := files[|files| - 1];
      var named :- AddName(init, f.fileName);
      AddSectionNames(named, f.sections)
  }

  /** `compressor.Add`: a new value goes to the end of the keys. */
  function AddKey(keys: seq<Str>, v: Str): seq<Str>
  {
    if v in keys then keys else keys + [v]
  }

  function ValueKeys(keys: seq<Str>, values: seq<Str>): seq<Str>
  {
    if values == [] then keys else AddKey(ValueKeys(keys, values[..|values| - 1]), values[|values| - 1])
  }

  function FieldKeys(keys: seq<Str>, fields: seq<CoalField>): seq<Str>
  {
    if fields == [] then keys else ValueKeys(FieldKeys(keys, fields[..|fields| - 1]), fields[|fields| - 1].values)
  }

  function SectionKeys(keys: seq<Str>, sections: seq<CoalSection>): seq<Str>
  {
    if sections == [] then keys
    else FieldKeys(SectionKeys(keys, sections[..|sections| - 1]), sections[|sections| - 1].fields)
  }

  /** The compressor's keys after every value of every file is added. */
  function FileKeys(keys: seq<Str>, files: seq<CoalFile>): seq<Str>
  {
    if files == [] then keys else SectionKeys(FileKeys(keys, files[..|files| - 1]), files[|files| - 1].sections)
  }

  /** WriteHeader's scan of one field's values: the longest so far. */
  function ValuesMax(values: seq<Str>, m: int): int
  {
    if values == [] then m else Max(ValuesMax(values[..|values| - 1], m), |values[|values| - 1]|)
  }

  /** WriteHeader's scan of a section's fields: the longest field name and
      the longest value so far. */
  function FieldsMax(fields: seq<CoalField>, m: (int, int)): (int, int)
  {
    if fields == [] then m
    else
      var p := FieldsMax(fields[..|fields| - 1], m);
      var f := fields[|fields| - 1];
      (Max(p.0, |f.name|), ValuesMax(f.values, p.1))
  }

  function SectionsMax(sections: seq<CoalSection>, m: (int, int)): (int, int)
  {
    if sections == [] then m
    else FieldsMax(sections[|sections| - 1].fields, SectionsMax(sections[..|sections| - 1], m))
  }

  /** WriteHeader's two maxima over every field of every section of every
      file, from m up. */
  function FilesMax(files: seq<CoalFile>, m: (int, int)): (int, int)
  {
    if files == [] then m
    else SectionsMax(files[|files| - 1].sections, FilesMax(files[..|files| - 1], m))
  }

  /** WriteHeader's counts: the two maxima over the files, then the
      lengths of the table, the node slots (with their count), the tree
      and the packed bits. */
  function SaveHeader(table: seq<byte>, nodes: seq<int>, tree: seq<byte>, data: seq<byte>, files: seq<CoalFile>)
    : FileHeader
  {
    var longest := FilesMax(files, (0, 0));
    FileHeader(longest.0, longest.1, |table|, |nodes| * 4 + 2, |tree|, |data|)
  }

  /** What Save writes, given the sorted table (its names and ids) and what
      Compress left (node slots, positions, packed bits). */
  function SaveBytes(names: seq<Str>, ids: map<Str, int>, nodes: seq<int>, positions: map<Str, int>,
                     data: seq<byte>, files: seq<CoalFile>): seq<byte>
  {
    var table, tree := StringTableBytes(names), TreeBytes(ids, positions, files);
    HeaderBytes(SaveHeader(table, nodes, tree, data, files)) + table + NodesBytes(nodes) + tree + DataBytes(data)
  }
}
