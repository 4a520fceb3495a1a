/** ME3Converter: Load reads the header, the string table, the Huffman
    nodes, the tree and the compressed data off the stream in that order;
    Save builds the tree and the string table in buffers first, then writes
    the header and the sections behind it. */
module ME3 {
  import opened Wrappers
  import opened Primitives
  import opened Formats
  import opened ByteCodec
  import opened StringCodec
  import opened Crc32
  import opened FormatDetection
  import opened CoalStream
  import opened Document
  import opened Strings
  import opened Buffers
  import opened HuffmanCompression
  import opened HuffmanDecompression
  import opened ME3Layout
  import opened ME3Writing
  import opened Sorting
  import opened HuffmanTree

  /** An entry of the index read so far: slots 2k and 2k + 1 of the array
      hold entry k's CRC and offset. */
  ghost predicate IndexHolds(a: array<uint32>, entries: seq<IndexEntry>)
    reads a
  {
    2 * |entries| <= a.Length
    && forall k :: 0 <= k < |entries| ==> a[2 * k] == entries[k].crc && a[2 * k + 1] == entries[k].offset
  }

  /** The index array's size, `numStrings * 2` in uint arithmetic, is even. */
  lemma {:induction false} EvenSize(n: nat)
    ensures Bits32(2 * n) == 2 * (n % 0x8000_0000)
  {
    var q, m := n / 0x8000_0000, n % 0x8000_0000;
    assert 2 * n == 0x1_0000_0000 * q + 2 * m;
  }

  /** A name of the string area: the two-byte length at offset (an index
      fault outside the area), then one char per byte. */
  method ReadName(area: seq<byte>, offset: uint32) returns (r: Result<Str>)
    ensures r == NameAt(area, offset)
  {
    if offset as int + 1 >= |area| {
      return Err(IndexOutOfRange);
    }
    var stringLen := DecodeUInt16(area[offset], area[offset + 1]);
    var start := offset as int + 2;
    var sb: Str := [];
    var c := start;
    while c < start + stringLen
      invariant start <= c <= start + stringLen && c <= |area|
      invariant sb == Widen(area[start..c])
    {
      if c >= |area| {
        return Err(IndexOutOfRange);
      }
      sb := sb + [area[c] as Char16];
      c := c + 1;
    }
    return Ok(sb);
  }

  /** One more item of a counted list: the list stops at the item's fault,
      or goes on after it. */
  lemma CountedStep<T>(read: (seq<byte>, nat) -> Result<(T, nat)>, d: seq<byte>, p: nat, n: int, acc: seq<T>)
    requires n > 0
    ensures read(d, p).Err? ==> ReadCounted(read, d, p, n, acc) == Err(read(d, p).error)
    ensures read(d, p).Ok? ==>
      ReadCounted(read, d, p, n, acc) == ReadCounted(read, d, read(d, p).value.1, n - 1, acc + [read(d, p).value.0])
  {
  }

  /** A place in a stream. It only serves as the trigger of the two
      descriptions below, so that a loop over a level's blocks sees what
      the level's reader does at just the places a pass asks about. */
  predicate At(d: seq<byte>, p: nat)
  {
    true
  }

  /** read is ReadWordsAt. */
  ghost predicate ReadsWords(read: (seq<byte>, nat) -> Result<(seq<uint32>, nat)>)
  {
    forall d: seq<byte>, p: nat {:trigger At(d, p)} :: read(d, p) == ReadWordsAt(d, p)
  }

  /** read is ReadFieldsAt over the table's names. */
  ghost predicate ReadsFields(read: (seq<byte>, nat) -> Result<(seq<WordField>, nat)>, table: seq<Str>)
  {
    forall d: seq<byte>, p: nat {:trigger At(d, p)} :: read(d, p) == ReadFieldsAt(table, d, p)
  }

  /** read is ReadSectionsAt over the table's names. */
  ghost predicate ReadsSections(read: (seq<byte>, nat) -> Result<(seq<WordSection>, nat)>, table: seq<Str>)
  {
    forall d: seq<byte>, p: nat {:trigger At(d, p)} :: read(d, p) == ReadSectionsAt(table, d, p)
  }

  class ME3Converter {
    /** `_bin`, the stream Load reads. */
    var bin: CoalFileStream
    /** `_strings`, the name table. */
    var strings: StringTable
    /** `_compressedDataLength`, from the header. */
    var compressedDataLength: uint32
    /** The table Crc32.Hash looks bytes up in. */
    const crcTable: array<bv32>

    ghost predicate Valid()
      reads this, bin, strings
    {
      bin.Valid() && strings.Valid()
    }

    /** The CRC table is the one Crc32 generates. */
    ghost predicate HashReady()
      reads this, crcTable
    {
      crcTable.Length == 256 && forall i :: 0 <= i < 256 ==> crcTable[i] == TableEntry(i)
    }

    constructor ()
      ensures Valid() && HashReady() && fresh(bin) && fresh(strings)
    {
      var table := GenerateTable();
      bin := new CoalFileStream([], MassEffect3);
      strings := new StringTable();
      compressedDataLength := 0;
      crcTable := table;
    }

    /** The signature and the version must match; the counts are read and
        only the compressed data length is kept. */
    method ReadHeader() returns (r: Result<()>)
      requires Valid()
      modifies this, bin
      ensures Valid() && bin == old(bin) && strings == old(strings) && bin.data == old(bin.data)
      ensures var spec := ReadHeaderAt(old(bin.data), old(bin.pos));
        (r.Ok? <==> spec.Ok?) && (r.Err? ==> r.error == spec.error)
        && (r.Ok? ==> compressedDataLength == spec.value.0.compressedDataLength && bin.pos == spec.value.1)
    {
      var sig :- bin.ReadInt();
      if sig != ME3Signature {
        return Err(CoalescedRead(BadSignature));
      }
      var version :- bin.ReadInt();
      if version != 1 {
        return Err(CoalescedRead(BadVersion(version)));
      }
      var maxFieldNameLength :- bin.ReadInt();
      var maxFieldValueLength :- bin.ReadInt();
      var stringSectionLength :- bin.ReadInt();
      var huffmanNodesLength :- bin.ReadInt();
      var treeSectionLength :- bin.ReadInt();
      var length :- bin.ReadUInt();
      compressedDataLength := length;
      return Ok(());
    }

    /** The table length and the name count, the index into an array of
        `numStrings * 2` slots, the area, then each name: it must hash to
        its CRC and is added to a new table. */
    method ReadStringTable() returns (r: Result<()>)
      requires Valid() && HashReady()
      modifies this, bin
      ensures Valid() && bin == old(bin) && bin.data == old(bin.data) && (r.Ok? ==> fresh(strings))
      ensures compressedDataLength == old(compressedDataLength)
      ensures ReadStringTableAt(old(bin.data), old(bin.pos))
           == if r.Ok? then Ok((strings.strings, bin.pos)) else Err(r.error)
    {
      var stringTableLength :- bin.ReadInt();
      var numStrings :- bin.ReadUInt();
      var stringIndex := new uint32[Bits32(2 * (numStrings as int))];
      EvenSize(numStrings);
      var read, entries := ReadIndex(numStrings, stringIndex);
      if read.Err? {
        return Err(read.error);
      }
      var table := new StringTable();
      var done :- ReadArea(table, stringTableLength, numStrings, stringIndex, entries);
      strings := table;
      return Ok(());
    }

    /** The string area, sized from the table length less the index, then
        the name loop into table. */
    method ReadArea(table: StringTable, stringTableLength: int32, numStrings: uint32, stringIndex: array<uint32>,
                    ghost entries: seq<IndexEntry>) returns (r: Result<()>)
      requires bin.Valid() && HashReady() && table.Valid() && table.strings == []
      requires IndexHolds(stringIndex, entries) && |entries| == numStrings
      modifies bin, table
      ensures bin.Valid() && bin.data == old(bin.data) && table.Valid()
      ensures ReadAreaAt(old(bin.data), old(bin.pos), stringTableLength, numStrings, entries)
           == if r.Ok? then Ok((table.strings, bin.pos)) else Err(r.error)
    {
      var stringIndexLength := Bits32(8 * (numStrings as int));
      var stringBufferLength := stringTableLength as int - stringIndexLength - 8;
      var stringBuf :- bin.ReadBytes(stringBufferLength);
      var added :- AddNames(table, stringBuf, stringIndex, entries, numStrings, stringIndexLength);
      return Ok(());
    }

    /** `ReadHuffmanNodes`: a ushort pair count, then `new int[count * 2]`
        filled with ints. */
    method ReadHuffmanNodes() returns (r: Result<seq<int32>>)
      requires bin.Valid()
      modifies bin
      ensures bin.Valid() && bin.data == old(bin.data)
      ensures ReadNodesAt(old(bin.data), old(bin.pos)) == if r.Ok? then Ok((r.value, bin.pos)) else Err(r.error)
    {
      ghost var d := bin.data;
      var numHuffmanNodes :- bin.ReadUShort();
      var huffmanNodes := new int32[2 * (numHuffmanNodes as int)];
      ghost var spec := ReadCounted(ReadInt32At, d, bin.pos, 2 * (numHuffmanNodes as int), []);
      var i := 0;
      while i < huffmanNodes.Length
        invariant bin.Valid() && bin.data == d && 0 <= i <= huffmanNodes.Length
        invariant ReadCounted(ReadInt32At, d, bin.pos, huffmanNodes.Length - i, huffmanNodes[..i]) == spec
      {
        var x :- bin.ReadInt();
        huffmanNodes[i] := x;
        assert huffmanNodes[..i + 1] == huffmanNodes[..i] + [x];
        i := i + 1;
      }
      assert huffmanNodes[..i] == huffmanNodes[..];
      return Ok(huffmanNodes[..]);
    }

    /** count heads of a level: each a name id looked up in the table and
        an offset that is read and dropped. */
    method ReadHeads(count: uint16) returns (r: Result<seq<Str>>)
      requires Valid()
      modifies bin
      ensures Valid() && bin.data == old(bin.data)
      ensures ReadCounted(HeadReader(strings.strings), old(bin.data), old(bin.pos), count, [])
           == if r.Ok? then Ok((r.value, bin.pos)) else Err(r.error)
    {
      ghost var d := bin.data;
      ghost var spec := ReadCounted(HeadReader(strings.strings), d, bin.pos, count, []);
      var names: seq<Str> := [];
      var i := 0;
      while i < count
        invariant Valid() && bin.data == d && 0 <= i <= count && |names| == i
        invariant ReadCounted(HeadReader(strings.strings), d, bin.pos, count - i, names) == spec
      {
        var id :- bin.ReadUShort();
        var name :- strings.GetString(id);
        var offset :- bin.ReadUInt();
        names := names + [name];
        i := i + 1;
      }
      return Ok(names);
    }

    /** A field's values: the count, then a uint per value. */
    method ReadValueWords() returns (r: Result<seq<uint32>>)
      requires bin.Valid()
      modifies bin
      ensures bin.Valid() && bin.data == old(bin.data)
      ensures ReadWordsAt(old(bin.data), old(bin.pos)) == if r.Ok? then Ok((r.value, bin.pos)) else Err(r.error)
    {
      ghost var d := bin.data;
      var numValues :- bin.ReadUShort();
      ghost var spec := ReadCounted(ReadUInt32At, d, bin.pos, numValues, []);
      var words: seq<uint32> := [];
      var i := 0;
      while i < numValues
        invariant bin.Valid() && bin.data == d && 0 <= i <= numValues && |words| == i
        invariant ReadCounted(ReadUInt32At, d, bin.pos, numValues - i, words) == spec
      {
        var w :- bin.ReadUInt();
        words := words + [w];
        i := i + 1;
      }
      return Ok(words);
    }

    /** A section's fields: the count, the heads, then each field's
        values. */
    method ReadFields() returns (r: Result<seq<WordField>>)
      requires Valid()
      modifies bin
      ensures Valid() && bin.data == old(bin.data)
      ensures ReadFieldsAt(strings.strings, old(bin.data), old(bin.pos)) == if r.Ok? then Ok((r.value, bin.pos)) else Err(r.error)
    {
      var numFields :- bin.ReadUShort();
      var names :- ReadHeads(numFields);
      var fields, bodies :- ReadFieldBodies(names, ReadWordsAt);
      return Ok(fields);
    }

    /** The second field loop: each named field's values. */
    method ReadFieldBodies(names: seq<Str>, ghost read: (seq<byte>, nat) -> Result<(seq<uint32>, nat)>)
      returns (r: Result<seq<WordField>>, ghost bodies: seq<seq<uint32>>)
      requires Valid() && ReadsWords(read)
      modifies bin
      ensures Valid() && bin.data == old(bin.data)
      ensures ReadCounted(read, old(bin.data), old(bin.pos), |names|, [])
           == if r.Ok? then Ok((bodies, bin.pos)) else Err(r.error)
      ensures r.Ok? ==> |bodies| == |names| && r.value == Zip(MakeField, names, bodies)
    {
      ghost var d := bin.data;
      ghost var spec := ReadCounted(read, d, bin.pos, |names|, []);
      bodies := [];
      var fields: seq<WordField> := [];
      var i := 0;
      while i < |names|
        invariant Valid() && bin.data == d && 0 <= i <= |names| && |bodies| == i
        invariant fields == Zip(MakeField, names[..i], bodies)
        invariant ReadCounted(read, d, bin.pos, |names| - i, bodies) == spec
      {
        var words :- ReadFieldBody(read, |names| - i, bodies);
        assert names[..i + 1][..i] == names[..i];
        fields := fields + [WordField(names[i], words)];
        bodies := bodies + [words];
        i := i + 1;
      }
      assert names[..i] == names;
      return Ok(fields), bodies;
    }

    /** One pass of the second field loop, as a step of the counted list
        of value blocks. */
    method ReadFieldBody(ghost read: (seq<byte>, nat) -> Result<(seq<uint32>, nat)>, ghost n: int, ghost acc: seq<seq<uint32>>)
      returns (r: Result<seq<uint32>>)
      requires bin.Valid() && ReadsWords(read) && n > 0
      modifies bin
      ensures bin.Valid() && bin.data == old(bin.data)
      ensures r.Ok? ==> ReadCounted(read, bin.data, old(bin.pos), n, acc) == ReadCounted(read, bin.data, bin.pos, n - 1, acc + [r.value])
      ensures r.Err? ==> ReadCounted(read, bin.data, old(bin.pos), n, acc) == Err(r.error)
    {
      assert At(bin.data, bin.pos);
      CountedStep(read, bin.data, bin.pos, n, acc);
      r := ReadValueWords();
    }

    /** A file's sections: the count, the heads, then each section's
        fields. */
    method ReadSections() returns (r: Result<seq<WordSection>>)
      requires Valid()
      modifies bin
      ensures Valid() && bin.data == old(bin.data)
      ensures ReadSectionsAt(strings.strings, old(bin.data), old(bin.pos)) == if r.Ok? then Ok((r.value, bin.pos)) else Err(r.error)
    {
      var numSections :- bin.ReadUShort();
      var names :- ReadHeads(numSections);
      var sections, bodies :- ReadSectionBodies(names, FieldsReader(strings.strings), strings.strings);
      return Ok(sections);
    }

    /** The second section loop: each named section's fields. */
    method ReadSectionBodies(names: seq<Str>, ghost read: (seq<byte>, nat) -> Result<(seq<WordField>, nat)>,
                             ghost table: seq<Str>) returns (r: Result<seq<WordSection>>, ghost bodies: seq<seq<WordField>>)
      requires Valid() && table == strings.strings && ReadsFields(read, table)
      modifies bin
      ensures Valid() && bin.data == old(bin.data)
      ensures ReadCounted(read, old(bin.data), old(bin.pos), |names|, [])
           == if r.Ok? then Ok((bodies, bin.pos)) else Err(r.error)
      ensures r.Ok? ==> |bodies| == |names| && r.value == Zip(MakeSection, names, bodies)
    {
      ghost var d := bin.data;
      ghost var spec := ReadCounted(read, d, bin.pos, |names|, []);
      bodies := [];
      var sections: seq<WordSection> := [];
      var i := 0;
      while i < |names|
        invariant Valid() && bin.data == d && 0 <= i <= |names| && |bodies| == i
        invariant sections == Zip(MakeSection, names[..i], bodies)
        invariant ReadCounted(read, d, bin.pos, |names| - i, bodies) == spec
      {
        var fields :- ReadSectionBody(read, table, |names| - i, bodies);
        assert names[..i + 1][..i] == names[..i];
        sections := sections + [WordSection(names[i], fields)];
        bodies := bodies + [fields];
        i := i + 1;
      }
      assert names[..i] == names;
      return Ok(sections), bodies;
    }

    /** One pass of the second section loop, as a step of the counted
        list of field levels. */
    method ReadSectionBody(ghost read: (seq<byte>, nat) -> Result<(seq<WordField>, nat)>, ghost table: seq<Str>, ghost n: int,
                           ghost acc: seq<seq<WordField>>) returns (r: Result<seq<WordField>>)
      requires Valid() && table == strings.strings && ReadsFields(read, table) && n > 0
      modifies bin
      ensures Valid() && bin.data == old(bin.data)
      ensures r.Ok? ==> ReadCounted(read, bin.data, old(bin.pos), n, acc) == ReadCounted(read, bin.data, bin.pos, n - 1, acc + [r.value])
      ensures r.Err? ==> ReadCounted(read, bin.data, old(bin.pos), n, acc) == Err(r.error)
    {
      assert At(bin.data, bin.pos);
      CountedStep(read, bin.data, bin.pos, n, acc);
      r := ReadFields();
    }

    /** `ReadTree`: the file count, the heads, then each file's sections;
        the values stay words until the compressed data is read. */
    method ReadTree() returns (r: Result<seq<WordFile>>)
      requires Valid()
      modifies bin
      ensures Valid() && bin.data == old(bin.data)
      ensures ReadTreeAt(strings.strings, old(bin.data), old(bin.pos)) == if r.Ok? then Ok((r.value, bin.pos)) else Err(r.error)
    {
      var numFiles :- bin.ReadUShort();
      var names :- ReadHeads(numFiles);
      var files, bodies :- ReadFileBodies(names, SectionsReader(strings.strings), strings.strings);
      return Ok(files);
    }

    /** One pass of the second file loop, as a step of the counted
        list of section levels. */
    method ReadFileBody(ghost read: (seq<byte>, nat) -> Result<(seq<WordSection>, nat)>, ghost table: seq<Str>, ghost n: int,
                           ghost acc: seq<seq<WordSection>>) returns (r: Result<seq<WordSection>>)
      requires Valid() && table == strings.strings && ReadsSections(read, table) && n > 0
      modifies bin
      ensures Valid() && bin.data == old(bin.data)
      ensures r.Ok? ==> ReadCounted(read, bin.data, old(bin.pos), n, acc) == ReadCounted(read, bin.data, bin.pos, n - 1, acc + [r.value])
      ensures r.Err? ==> ReadCounted(read, bin.data, old(bin.pos), n, acc) == Err(r.error)
    {
      assert At(bin.data, bin.pos);
      CountedStep(read, bin.data, bin.pos, n, acc);
      r := ReadSections();
    }

    /** The second file loop: each named file's sections. */
    method ReadFileBodies(names: seq<Str>, ghost read: (seq<byte>, nat) -> Result<(seq<WordSection>, nat)>,
                          ghost table: seq<Str>) returns (r: Result<seq<WordFile>>, ghost bodies: seq<seq<WordSection>>)
      requires Valid() && table == strings.strings && ReadsSections(read, table)
      modifies bin
      ensures Valid() && bin.data == old(bin.data)
      ensures ReadCounted(read, old(bin.data), old(bin.pos), |names|, [])
           == if r.Ok? then Ok((bodies, bin.pos)) else Err(r.error)
      ensures r.Ok? ==> |bodies| == |names| && r.value == Zip(MakeFile, names, bodies)
    {
      ghost var d := bin.data;
      ghost var spec := ReadCounted(read, d, bin.pos, |names|, []);
      bodies := [];
      var files: seq<WordFile> := [];
      var i := 0;
      while i < |names|
        invariant Valid() && bin.data == d && 0 <= i <= |names| && |bodies| == i
        invariant files == Zip(MakeFile, names[..i], bodies)
        invariant ReadCounted(read, d, bin.pos, |names| - i, bodies) == spec
      {
        var sections :- ReadFileBody(read, table, |names| - i, bodies);
        assert names[..i + 1][..i] == names[..i];
        files := files + [WordFile(names[i], sections)];
        bodies := bodies + [sections];
        i := i + 1;
      }
      assert names[..i] == names;
      return Ok(files), bodies;
    }

    /** The index loop: `stringIndex[s++] = ReadUInt()` twice per name; the
        store past the array's end faults after the read. */
    method ReadIndex(numStrings: uint32, stringIndex: array<uint32>) returns (r: Result<()>, ghost entries: seq<IndexEntry>)
      requires bin.Valid() && stringIndex.Length % 2 == 0
      modifies bin, stringIndex
      ensures bin.Valid() && bin.data == old(bin.data)
      ensures r.Ok? ==> IndexHolds(stringIndex, entries)
      ensures ReadIndexAt(old(bin.data), old(bin.pos), numStrings, stringIndex.Length, [])
           == if r.Ok? then Ok((entries, bin.pos)) else Err(r.error)
    {
      ghost var d := bin.data;
      ghost var spec := ReadIndexAt(d, bin.pos, numStrings, stringIndex.Length, []);
      entries := [];
      var s: int := 0;
      var i: int := 0;
      while i < numStrings
        invariant bin.Valid() && bin.data == d && 0 <= i <= numStrings && |entries| == i && s == 2 * i
        invariant IndexHolds(stringIndex, entries)
        invariant ReadIndexAt(d, bin.pos, numStrings - i, stringIndex.Length, entries) == spec
      {
        var crc :- bin.ReadUInt();
        if s >= stringIndex.Length {
          return Err(IndexOutOfRange), entries;
        }
        stringIndex[s] := crc;
        var offset :- bin.ReadUInt();
        stringIndex[s + 1] := offset;
        entries := entries + [IndexEntry(crc, offset)];
        s := s + 2;
        i := i + 1;
      }
      return Ok(()), entries;
    }

    /** One pass of the name loop. */
    method AddEntry(table: StringTable, area: seq<byte>, fileCrc: uint32, offset: uint32, stringIndexLength: uint32)
      returns (r: Result<()>)
      requires HashReady() && table.Valid()
      modifies table
      ensures table.Valid()
      ensures ReadEntry(area, IndexEntry(fileCrc, offset), stringIndexLength, old(table.strings))
           == if r.Ok? then Ok(table.strings) else Err(r.error)
    {
      var str :- ReadChecked(area, fileCrc, offset, stringIndexLength);
      InTable(table, ToLower(str));
      var added :- table.Add(str);
      return Ok(());
    }

    /** The name of an entry, and its CRC check. */
    method ReadChecked(area: seq<byte>, fileCrc: uint32, offset: uint32, stringIndexLength: uint32) returns (r: Result<Str>)
      requires HashReady()
      ensures r == CheckedName(area, IndexEntry(fileCrc, offset), stringIndexLength)
    {
      var stringOffset := Bits32(offset as int - stringIndexLength);
      var str :- ReadName(area, stringOffset);
      var calcCrc := Hash(crcTable, str);
      if fileCrc != calcCrc as int {
        return Err(CoalescedRead(CrcMismatch(fileCrc, calcCrc as int)));
      }
      return Ok(str);
    }

    /** The name loop: each name read from the area at its offset less the
        index size, checked against its CRC, then added to the table. */
    method AddNames(table: StringTable, area: seq<byte>, stringIndex: array<uint32>, ghost entries: seq<IndexEntry>,
                    numStrings: uint32, stringIndexLength: uint32) returns (r: Result<()>)
      requires HashReady() && table.Valid() && table.strings == [] && IndexHolds(stringIndex, entries)
      requires |entries| == numStrings
      modifies table
      ensures table.Valid()
      ensures ReadNames(area, entries, stringIndexLength, 0, []) == if r.Ok? then Ok(table.strings) else Err(r.error)
    {
      ghost var names := ReadNames(area, entries, stringIndexLength, 0, []);
      var i: int := 0;
      while i < numStrings
        invariant table.Valid() && 0 <= i <= numStrings
        invariant ReadNames(area, entries, stringIndexLength, i, table.strings) == names
      {
        var fileCrc := stringIndex[2 * i];
        var stringOffset := stringIndex[2 * i + 1];
        assert fileCrc == entries[i].crc && stringOffset == entries[i].offset;
        var added :- AddEntry(table, area, fileCrc, stringOffset, stringIndexLength);
        i := i + 1;
      }
      return Ok(());
    }

    /** A dropped uint, the compressed bits, then every value word of
        the tree replaced by the string it points at. */
    method ReadCompressedData(huffmanNodes: seq<int32>, tree: seq<WordFile>) returns (r: Result<seq<CoalFile>>)
      requires bin.Valid()
      modifies bin
      ensures bin.Valid() && bin.data == old(bin.data)
      ensures DecodeDataAt(huffmanNodes, tree, old(bin.data), old(bin.pos), compressedDataLength) == r
    {
      var unk :- bin.ReadUInt();
      var compressedData :- bin.ReadBytes(Wrap32(compressedDataLength));
      var decomp := new HuffmanDecompressor(huffmanNodes);
      r := DecodeFileList(decomp, compressedData, tree);
    }

    /** Load after the header: the string table, the nodes, the tree,
        then the compressed data the tree's words point into. */
    method ReadParts() returns (r: Result<seq<CoalFile>>)
      requires Valid() && HashReady()
      modifies this, bin
      ensures Valid() && bin == old(bin)
      ensures ReadPartsAt(old(bin.data), old(bin.pos), old(compressedDataLength)) == r
    {
      ghost var d := bin.data;
      ghost var atTable := bin.pos;
      var table :- ReadStringTable();
      ghost var names := strings.strings;
      ghost var atNodes := bin.pos;
      assert ReadStringTableAt(d, atTable) == Ok((names, atNodes));
      var huffmanNodes :- ReadHuffmanNodes();
      ghost var atTree := bin.pos;
      var tree :- ReadTree();
      assert ReadTreeAt(names, d, atTree) == Ok((tree, bin.pos));
      r := ReadCompressedData(huffmanNodes, tree);
    }

    /** `Load`: a fresh stream over the archive, then its five parts in
        order; the document holds the decoded tree. */
    method Load(contents: seq<byte>) returns (r: Result<CoalDocument>)
      requires Valid() && HashReady()
      modifies this
      ensures Valid() && HashReady()
      ensures r.Ok? ==> fresh(r.value) && r.value.format == MassEffect3
      ensures LoadBytes(contents) == if r.Ok? then Ok(r.value.files) else Err(r.error)
    {
      bin := new CoalFileStream(contents, MassEffect3);
      var header :- ReadHeader();
      var files :- ReadParts();
      var doc := new CoalDocument(MassEffect3);
      doc.files := files;
      return Ok(doc);
    }

    /** WriteTree's first walk, then the table sorted and the values
        compressed; the first name the table refuses stops it. */
    method Gather(files: seq<CoalFile>, compressor: HuffmanCompressor)
      returns (r: Result<()>, ghost queue: seq<Node>, ghost root: Node)
      requires Valid() && compressor.Valid()
      modifies strings, compressor
      ensures Valid() && compressor.Valid()
      ensures AddFileNames(old(strings.strings), files).Err? ==> r == Err(TooManyStrings)
      ensures AddFileNames(old(strings.strings), files).Ok? ==>
                r.Ok?
                && multiset(strings.strings) == multiset(AddFileNames(old(strings.strings), files).value)
                && SortedBy(strings.strings, Key)
                && compressor.keys == FileKeys(old(compressor.keys), files)
                && FilesGathered(compressor.keys, files)
                && Compressed(compressor.keys, compressor.positions, compressor.nodes, compressor.codes,
                              compressor.compressedData, queue, root)
    {
      var added := AddFiles(strings, compressor, files);
      if added.Err? {
        return Err(added.error), [], Leaf(0, 0);
      }
      strings.Sort();
      queue, root := compressor.Compress();
      FileKeysGathered(old(compressor.keys), files);
      return Ok(()), queue, root;
    }

    /** WriteTree: the first walk, the sort and the compression, then the
        tree written level by level with the new ids and positions. */
    method WriteTree(files: seq<CoalFile>, compressor: HuffmanCompressor)
      returns (r: Result<BinaryBuffer>, ghost queue: seq<Node>, ghost root: Node)
      requires Valid() && compressor.Valid()
      modifies strings, compressor
      ensures Valid() && compressor.Valid()
      ensures AddFileNames(old(strings.strings), files).Err? ==> r == Err(TooManyStrings)
      ensures AddFileNames(old(strings.strings), files).Ok? ==>
                r.Ok? && fresh(r.value) && fresh(r.value.buf) && r.value.Valid()
                && multiset(strings.strings) == multiset(AddFileNames(old(strings.strings), files).value)
                && SortedBy(strings.strings, Key)
                && compressor.keys == FileKeys(old(compressor.keys), files)
                && Compressed(compressor.keys, compressor.positions, compressor.nodes, compressor.codes,
                              compressor.compressedData, queue, root)
                && r.value.Contents() == TreeBytes(strings.ids, compressor.positions, files)
    {
      var gathered;
      gathered, queue, root := Gather(files, compressor);
      if gathered.Err? {
        return Err(gathered.error), queue, root;
      }
      var treeBuf := NewTree(strings, compressor, files);
      return Ok(treeBuf), queue, root;
    }

    /** WriteStringTable, over the table's names in their sorted order. */
    method WriteStringTable() returns (r: Result<BinaryBuffer>)
      requires Valid() && HashReady()
      ensures r.Err? <==> Wrap32(TableLength(strings.strings)) < 0
      ensures r.Err? ==> r.error == ArgumentOutOfRange
      ensures r.Ok? ==> fresh(r.value) && fresh(r.value.buf) && r.value.Valid()
      ensures r.Ok? ==> r.value.Contents() == StringTableBytes(strings.strings)
    {
      r := WriteTable(crcTable, strings.strings);
    }

    /** `_strings = new StringTable(1024); _strings.Add("")`. */
    method StartTable()
      requires Valid()
      modifies this
      ensures Valid() && fresh(strings) && strings.strings == [[]] && bin == old(bin)
    {
      strings := new StringTable();
      var empty := strings.Add([]);
    }

    /** Save after WriteTree: the string table, then the archive around it
        and the tree; `new BinaryBuffer` refuses a table whose length is
        negative as an int. */
    method WriteParts(files: seq<CoalFile>, treeBuf: BinaryBuffer, compressor: HuffmanCompressor)
      returns (r: Result<seq<byte>>)
      requires Valid() && HashReady() && treeBuf.Valid()
      requires treeBuf.Contents() == TreeBytes(strings.ids, compressor.positions, files)
      ensures r.Err? <==> Wrap32(TableLength(strings.strings)) < 0
      ensures r.Err? ==> r.error == ArgumentOutOfRange
      ensures r.Ok? ==> r.value == SaveBytes(strings.strings, strings.ids, compressor.nodes, compressor.positions,
                                             compressor.compressedData, files)
    {
      ghost var tree, names, ids := treeBuf.Contents(), strings.strings, strings.ids;
      ghost var positions := compressor.positions;
      var nodes, data := compressor.nodes, compressor.compressedData;
      assert tree == TreeBytes(ids, positions, files);
      var stringTableBuf :- WriteStringTable();
      ghost var table := stringTableBuf.Contents();
      assert table == StringTableBytes(names);
      var bytes := WriteArchive(files, stringTableBuf, treeBuf, nodes, data, table, tree);
      SaveDone(names, ids, nodes, positions, data, files, table, tree, bytes);
      return Ok(bytes);
    }

    /** `Save`: a fresh compressor and a fresh table holding "", the tree
        (which fills both), the string table, then the header and the
        sections; the archive's bytes are what goes to the stream. What the
        compressor holds at the end is given back as ghosts. */
    method Save(doc: CoalDocument)
      returns (r: Result<seq<byte>>, ghost positions: map<Str, int>, ghost nodes: seq<int>,
               ghost codes: map<Char16, ChainCode>, ghost data: seq<byte>, ghost queue: seq<Node>, ghost root: Node)
      requires Valid() && HashReady()
      modifies this
      ensures Valid() && HashReady() && fresh(strings)
      ensures AddFileNames([[]], doc.files).Err? ==> r == Err(TooManyStrings)
      ensures AddFileNames([[]], doc.files).Ok? ==>
                multiset(strings.strings) == multiset(AddFileNames([[]], doc.files).value)
                && SortedBy(strings.strings, Key)
                && Compressed(FileKeys([], doc.files), positions, nodes, codes, data, queue, root)
                && (r.Err? <==> Wrap32(TableLength(strings.strings)) < 0)
                && (r.Err? ==> r.error == ArgumentOutOfRange)
                && (r.Ok? ==> r.value == SaveBytes(strings.strings, strings.ids, nodes, positions, data, doc.files))
    {
      var compressor := new HuffmanCompressor();
      StartTable();
      var files := doc.files;
      var treeBuf;
      treeBuf, queue, root := WriteTree(files, compressor);
      positions, nodes, codes, data := compressor.positions, compressor.nodes, compressor.codes, compressor.compressedData;
      if treeBuf.Err? {
        return Err(treeBuf.error), positions, nodes, codes, data, queue, root;
      }
      r := WriteParts(files, treeBuf.value, compressor);
    }
  }

  // ---------------------------------------------------------------------
  // ReadCompressedData's nested loops, one level per method.

  /** A word's string: the bits at its low 28 bits (`offset & 0xFFFFFFF`),
      then the test of its high nibble (`offset >> 28`). */
  method DecodeValue(decomp: HuffmanDecompressor, data: seq<byte>, word: uint32) returns (r: Result<Str>)
    ensures r == DecodeWord(decomp.nodes, data, word)
  {
    var str :- decomp.Decompress(data, (word % 0x1000_0000) as nat);
    var tag := word / 0x1000_0000;
    if tag != TypeString {
      return Err(UnsupportedValueType(tag));
    }
    return Ok(str);
  }

  /** The innermost loop: a field's words, in order. */
  method DecodeValueList(decomp: HuffmanDecompressor, data: seq<byte>, words: seq<uint32>) returns (r: Result<seq<Str>>)
    ensures r == DecodeValues(decomp.nodes, data, words)
  {
    var values: seq<Str> := [];
    var v := 0;
    while v < |words|
      invariant 0 <= v <= |words| && DecodeValues(decomp.nodes, data, words[..v]) == Ok(values)
    {
      assert words[..v + 1][..v] == words[..v];
      var str := DecodeValue(decomp, data, words[v]);
      if str.Err? {
        ValuesPrefix(decomp.nodes, data, words, v + 1);
        return Err(str.error);
      }
      values := values + [str.value];
      v := v + 1;
    }
    assert words[..v] == words;
    return Ok(values);
  }

  /** The field loop. */
  method DecodeFieldList(decomp: HuffmanDecompressor, data: seq<byte>, fields: seq<WordField>) returns (r: Result<seq<CoalField>>)
    ensures r == DecodeFields(decomp.nodes, data, fields)
  {
    var out: seq<CoalField> := [];
    var i := 0;
    while i < |fields|
      invariant 0 <= i <= |fields| && DecodeFields(decomp.nodes, data, fields[..i]) == Ok(out)
    {
      assert fields[..i + 1][..i] == fields[..i];
      var values := DecodeValueList(decomp, data, fields[i].words);
      if values.Err? {
        FieldsPrefix(decomp.nodes, data, fields, i + 1);
        return Err(values.error);
      }
      out := out + [CoalField(fields[i].name, values.value)];
      i := i + 1;
    }
    assert fields[..i] == fields;
    return Ok(out);
  }

  /** The section loop. */
  method DecodeSectionList(decomp: HuffmanDecompressor, data: seq<byte>, sections: seq<WordSection>)
    returns (r: Result<seq<CoalSection>>)
    ensures r == DecodeSections(decomp.nodes, data, sections)
  {
    var out: seq<CoalSection> := [];
    var i := 0;
    while i < |sections|
      invariant 0 <= i <= |sections| && DecodeSections(decomp.nodes, data, sections[..i]) == Ok(out)
    {
      assert sections[..i + 1][..i] == sections[..i];
      var fields := DecodeFieldList(decomp, data, sections[i].fields);
      if fields.Err? {
        SectionsPrefix(decomp.nodes, data, sections, i + 1);
        return Err(fields.error);
      }
      out := out + [CoalSection(sections[i].name, fields.value)];
      i := i + 1;
    }
    assert sections[..i] == sections;
    return Ok(out);
  }

  /** The file loop. */
  method DecodeFileList(decomp: HuffmanDecompressor, data: seq<byte>, files: seq<WordFile>) returns (r: Result<seq<CoalFile>>)
    ensures r == DecodeFiles(decomp.nodes, data, files)
  {
    var out: seq<CoalFile> := [];
    var i := 0;
    while i < |files|
      invariant 0 <= i <= |files| && DecodeFiles(decomp.nodes, data, files[..i]) == Ok(out)
    {
      assert files[..i + 1][..i] == files[..i];
      var sections := DecodeSectionList(decomp, data, files[i].sections);
      if sections.Err? {
        FilesPrefix(decomp.nodes, data, files, i + 1);
        return Err(sections.error);
      }
      out := out + [CoalFile(files[i].fileName, sections.value)];
      i := i + 1;
    }
    assert files[..i] == files;
    return Ok(out);
  }

  /** The first word that fails decides the error of the whole list. */
  lemma {:induction false} ValuesPrefix(nodes: seq<int>, data: seq<byte>, words: seq<uint32>, i: nat)
    requires i <= |words| && DecodeValues(nodes, data, words[..i]).Err?
    ensures DecodeValues(nodes, data, words) == DecodeValues(nodes, data, words[..i])
    decreases |words|
  {
    if i == |words| {
      assert words[..i] == words;
    } else {
      var init := words[..|words| - 1];
      assert init[..i] == words[..i];
      ValuesPrefix(nodes, data, init, i);
    }
  }

  lemma {:induction false} FieldsPrefix(nodes: seq<int>, data: seq<byte>, fields: seq<WordField>, i: nat)
    requires i <= |fields| && DecodeFields(nodes, data, fields[..i]).Err?
    ensures DecodeFields(nodes, data, fields) == DecodeFields(nodes, data, fields[..i])
    decreases |fields|
  {
    if i == |fields| {
      assert fields[..i] == fields;
    } else {
      var init := fields[..|fields| - 1];
      assert init[..i] == fields[..i];
      FieldsPrefix(nodes, data, init, i);
    }
  }

  lemma {:induction false} SectionsPrefix(nodes: seq<int>, data: seq<byte>, sections: seq<WordSection>, i: nat)
    requires i <= |sections| && DecodeSections(nodes, data, sections[..i]).Err?
    ensures DecodeSections(nodes, data, sections) == DecodeSections(nodes, data, sections[..i])
    decreases |sections|
  {
    if i == |sections| {
      assert sections[..i] == sections;
    } else {
      var init := sections[..|sections| - 1];
      assert init[..i] == sections[..i];
      SectionsPrefix(nodes, data, init, i);
    }
  }

  lemma {:induction false} FilesPrefix(nodes: seq<int>, data: seq<byte>, files: seq<WordFile>, i: nat)
    requires i <= |files| && DecodeFiles(nodes, data, files[..i]).Err?
    ensures DecodeFiles(nodes, data, files) == DecodeFiles(nodes, data, files[..i])
    decreases |files|
  {
    if i == |files| {
      assert files[..i] == files;
    } else {
      var init := files[..|files| - 1];
      assert init[..i] == files[..i];
      FilesPrefix(nodes, data, init, i);
    }
  }
}
