/** ME3Converter.WriteTree: a first walk adds every file, section and field
    name to the string table and every value to the Huffman compressor; a
    second walk writes the tree level by level, each level's heads into one
    buffer and its blocks into the next, which the level appends when it is
    done. */
module ME3Writing {
  import opened Wrappers
  import opened Primitives
  import opened ByteCodec
  import opened Document
  import opened Strings
  import opened Buffers
  import opened HuffmanCompression
  import opened StringCodec
  import opened Crc32
  import opened FormatDetection
  import opened ME3Layout
  import opened ME3RoundTrip

  // ---------------------------------------------------------------------
  // The first walk: names and values.

  /** `_strings.Add`, seen as AddName on the table's list. */
  method AddTo(table: StringTable, name: Str) returns (r: Result<()>)
    requires table.Valid()
    modifies table
    ensures table.Valid()
    ensures AddName(old(table.strings), name) == if r.Ok? then Ok(table.strings) else Err(r.error)
  {
    InTable(table, ToLower(name));
    r := table.Add(name);
  }

  /** `compressor.Add(value)` for each value of a field. */
  method AddValues(compressor: HuffmanCompressor, values: seq<Str>)
    requires compressor.Valid()
    modifies compressor
    ensures compressor.Valid() && compressor.keys == ValueKeys(old(compressor.keys), values)
  {
    var i := 0;
    while i < |values|
      invariant 0 <= i <= |values| && compressor.Valid()
      invariant compressor.keys == ValueKeys(old(compressor.keys), values[..i])
    {
      assert values[..i + 1][..i] == values[..i];
      compressor.Add(values[i]);
      i := i + 1;
    }
    assert values[..i] == values;
  }

  /** Each field's name to the table, then its values to the compressor. */
  method AddFields(table: StringTable, compressor: HuffmanCompressor, fields: seq<CoalField>) returns (r: Result<()>)
    requires table.Valid() && compressor.Valid()
    modifies table, compressor
    ensures table.Valid() && compressor.Valid()
    ensures AddFieldNames(old(table.strings), fields) == if r.Ok? then Ok(table.strings) else Err(r.error)
    ensures r.Ok? ==> compressor.keys == FieldKeys(old(compressor.keys), fields)
  {
    var i := 0;
    while i < |fields|
      invariant 0 <= i <= |fields| && table.Valid() && compressor.Valid()
      invariant AddFieldNames(old(table.strings), fields[..i]) == Ok(table.strings)
      invariant compressor.keys == FieldKeys(old(compressor.keys), fields[..i])
    {
      assert fields[..i + 1][..i] == fields[..i];
      var added := AddTo(table, fields[i].name);
      if added.Err? {
        FieldNamesPrefix(old(table.strings), fields, i + 1);
        return Err(added.error);
      }
      AddValues(compressor, fields[i].values);
      i := i + 1;
    }
    assert fields[..i] == fields;
    return Ok(());
  }

  /** Each section's name, then its fields. */
  method AddSections(table: StringTable, compressor: HuffmanCompressor, sections: seq<CoalSection>)
    returns (r: Result<()>)
    requires table.Valid() && compressor.Valid()
    modifies table, compressor
    ensures table.Valid() && compressor.Valid()
    ensures AddSectionNames(old(table.strings), sections) == if r.Ok? then Ok(table.strings) else Err(r.error)
    ensures r.Ok? ==> compressor.keys == SectionKeys(old(compressor.keys), sections)
  {
    var i := 0;
    while i < |sections|
      invariant 0 <= i <= |sections| && table.Valid() && compressor.Valid()
      invariant AddSectionNames(old(table.strings), sections[..i]) == Ok(table.strings)
      invariant compressor.keys == SectionKeys(old(compressor.keys), sections[..i])
    {
      SectionStep(old(table.strings), old(compressor.keys), sections, i, table.strings);
      var added := AddTo(table, sections[i].name);
      if added.Err? {
        SectionNamesPrefix(old(table.strings), sections, i + 1);
        return Err(added.error);
      }
      var fields := AddFields(table, compressor, sections[i].fields);
      if fields.Err? {
        SectionNamesPrefix(old(table.strings), sections, i + 1);
        return Err(fields.error);
      }
      i := i + 1;
    }
    assert sections[..i] == sections;
    return Ok(());
  }

  /** WriteTree's first walk: each file's name, then its sections. */
  method AddFiles(table: StringTable, compressor: HuffmanCompressor, files: seq<CoalFile>) returns (r: Result<()>)
    requires table.Valid() && compressor.Valid()
    modifies table, compressor
    ensures table.Valid() && compressor.Valid()
    ensures AddFileNames(old(table.strings), files) == if r.Ok? then Ok(table.strings) else Err(r.error)
    ensures r.Ok? ==> compressor.keys == FileKeys(old(compressor.keys), files)
  {
    var i := 0;
    while i < |files|
      invariant 0 <= i <= |files| && table.Valid() && compressor.Valid()
      invariant AddFileNames(old(table.strings), files[..i]) == Ok(table.strings)
      invariant compressor.keys == FileKeys(old(compressor.keys), files[..i])
    {
      FileStep(old(table.strings), old(compressor.keys), files, i, table.strings);
      var added := AddTo(table, files[i].fileName);
      if added.Err? {
        FileNamesPrefix(old(table.strings), files, i + 1);
        return Err(added.error);
      }
      var sections := AddSections(table, compressor, files[i].sections);
      if sections.Err? {
        FileNamesPrefix(old(table.strings), files, i + 1);
        return Err(sections.error);
      }
      i := i + 1;
    }
    assert files[..i] == files;
    return Ok(());
  }

  /** A name the table refuses stops the walk: the rest adds nothing. */
  lemma {:induction false} FieldNamesPrefix(names: seq<Str>, fields: seq<CoalField>, i: nat)
    requires i <= |fields| && AddFieldNames(names, fields[..i]).Err?
    ensures AddFieldNames(names, fields) == AddFieldNames(names, fields[..i])
    decreases |fields|
  {
    if i == |fields| {
      assert fields[..i] == fields;
    } else {
      var init := fields[..|fields| - 1];
      assert init[..i] == fields[..i];
      FieldNamesPrefix(names, init, i);
    }
  }

  /** One more section: its name, then its fields' names and values. */
  lemma {:induction false} SectionStep(names: seq<Str>, keys: seq<Str>, sections: seq<CoalSection>, i: nat, mid: seq<Str>)
    requires i < |sections| && AddSectionNames(names, sections[..i]) == Ok(mid)
    ensures AddSectionNames(names, sections[..i + 1])
         == match AddName(mid, sections[i].name)
            case Err(e) => Err(e)
            case Ok(named) => AddFieldNames(named, sections[i].fields)
    ensures SectionKeys(keys, sections[..i + 1]) == FieldKeys(SectionKeys(keys, sections[..i]), sections[i].fields)
  {
    assert sections[..i + 1][..i] == sections[..i];
  }

  lemma {:induction false} FileStep(names: seq<Str>, keys: seq<Str>, files: seq<CoalFile>, i: nat, mid: seq<Str>)
    requires i < |files| && AddFileNames(names, files[..i]) == Ok(mid)
    ensures AddFileNames(names, files[..i + 1])
         == match AddName(mid, files[i].fileName)
            case Err(e) => Err(e)
            case Ok(named) => AddSectionNames(named, files[i].sections)
    ensures FileKeys(keys, files[..i + 1]) == SectionKeys(FileKeys(keys, files[..i]), files[i].sections)
  {
    assert files[..i + 1][..i] == files[..i];
  }

  lemma {:induction false} SectionNamesPrefix(names: seq<Str>, sections: seq<CoalSection>, i: nat)
    requires i <= |sections| && AddSectionNames(names, sections[..i]).Err?
    ensures AddSectionNames(names, sections) == AddSectionNames(names, sections[..i])
    decreases |sections|
  {
    if i == |sections| {
      assert sections[..i] == sections;
    } else {
      var init := sections[..|sections| - 1];
      assert init[..i] == sections[..i];
      SectionNamesPrefix(names, init, i);
    }
  }

  lemma {:induction false} FileNamesPrefix(names: seq<Str>, files: seq<CoalFile>, i: nat)
    requires i <= |files| && AddFileNames(names, files[..i]).Err?
    ensures AddFileNames(names, files) == AddFileNames(names, files[..i])
    decreases |files|
  {
    if i == |files| {
      assert files[..i] == files;
    } else {
      var init := files[..|files| - 1];
      assert init[..i] == files[..i];
      FileNamesPrefix(names, init, i);
    }
  }

  /** The members of a non-empty list: those of its front, and its last. */
  lemma {:induction false} MembersSnoc<T>(xs: seq<T>)
    requires xs != []
    ensures forall x :: x in xs <==> x in xs[..|xs| - 1] || x == xs[|xs| - 1]
  {
    assert xs == xs[..|xs| - 1] + [xs[|xs| - 1]];
  }

  /** The compressor's keys after a field's values: the old keys and the
      values, nothing else. */
  lemma {:induction false} ValueKeysHold(keys: seq<Str>, values: seq<Str>)
    ensures forall v :: v in ValueKeys(keys, values) <==> v in keys || v in values
    decreases |values|
  {
    if values != [] {
      var init := values[..|values| - 1];
      MembersSnoc(values);
      ValueKeysHold(keys, init);
    }
  }

  lemma {:induction false} FieldKeysHold(keys: seq<Str>, fields: seq<CoalField>)
    ensures forall v :: v in FieldKeys(keys, fields) <==> v in keys || exists f :: f in fields && v in f.values
    decreases |fields|
  {
    if fields != [] {
      var init, last := fields[..|fields| - 1], fields[|fields| - 1];
      MembersSnoc(fields);
      FieldKeysHold(keys, init);
      ValueKeysHold(FieldKeys(keys, init), last.values);
    }
  }

  lemma {:induction false} SectionKeysHold(keys: seq<Str>, sections: seq<CoalSection>)
    ensures forall v :: v in SectionKeys(keys, sections)
                    <==> v in keys || exists s, f :: s in sections && f in s.fields && v in f.values
    decreases |sections|
  {
    if sections != [] {
      var init, last := sections[..|sections| - 1], sections[|sections| - 1];
      MembersSnoc(sections);
      SectionKeysHold(keys, init);
      FieldKeysHold(SectionKeys(keys, init), last.fields);
    }
  }

  /** After the first walk the compressor holds its old keys and every
      value of the document, and nothing else. */
  lemma {:induction false} FileKeysHold(keys: seq<Str>, files: seq<CoalFile>)
    ensures forall v :: v in FileKeys(keys, files)
                    <==> v in keys || exists fl, s, f :: fl in files && s in fl.sections && f in s.fields && v in f.values
    decreases |files|
  {
    if files != [] {
      var init, last := files[..|files| - 1], files[|files| - 1];
      MembersSnoc(files);
      FileKeysHold(keys, init);
      SectionKeysHold(FileKeys(keys, init), last.sections);
    }
  }

  /** So the second walk finds every value among the keys. */
  lemma {:induction false} FileKeysGathered(keys: seq<Str>, files: seq<CoalFile>)
    ensures FilesGathered(FileKeys(keys, files), files)
  {
    FileKeysHold(keys, files);
  }

  /** The table after a section's field names: the old names and the
      lower-cased field names, nothing else. */
  lemma {:induction false} FieldNamesHold(names: seq<Str>, fields: seq<CoalField>)
    requires AddFieldNames(names, fields).Ok?
    ensures forall x :: x in AddFieldNames(names, fields).value
                    <==> x in names || exists f :: f in fields && x == ToLower(f.name)
    decreases |fields|
  {
    if fields != [] {
      var init, last := fields[..|fields| - 1], fields[|fields| - 1];
      MembersSnoc(fields);
      FieldNamesHold(names, init);
    }
  }

  lemma {:induction false} SectionNamesHold(names: seq<Str>, sections: seq<CoalSection>)
    requires AddSectionNames(names, sections).Ok?
    ensures forall x :: x in AddSectionNames(names, sections).value
                    <==> (x in names || (exists s :: s in sections && x == ToLower(s.name))
                          || (exists s, f :: s in sections && f in s.fields && x == ToLower(f.name)))
    decreases |sections|
  {
    if sections != [] {
      var init, last := sections[..|sections| - 1], sections[|sections| - 1];
      MembersSnoc(sections);
      SectionNamesHold(names, init);
      var named := AddName(AddSectionNames(names, init).value, last.name);
      FieldNamesHold(named.value, last.fields);
    }
  }

  /** After the first walk the table holds its old names and the
      lower-cased name of every file, section and field, and nothing
      else. */
  lemma {:induction false} FileNamesHold(names: seq<Str>, files: seq<CoalFile>)
    requires AddFileNames(names, files).Ok?
    ensures forall x :: x in AddFileNames(names, files).value
                    <==> (x in names || (exists fl :: fl in files && x == ToLower(fl.fileName))
                          || (exists fl, s :: fl in files && s in fl.sections && x == ToLower(s.name))
                          || (exists fl, s, f :: fl in files && s in fl.sections && f in s.fields && x == ToLower(f.name)))
    decreases |files|
  {
    if files != [] {
      var init, last := files[..|files| - 1], files[|files| - 1];
      MembersSnoc(files);
      FileNamesHold(names, init);
      var named := AddName(AddFileNames(names, init).value, last.fileName).value;
      assert AddFileNames(names, files) == AddSectionNames(named, last.sections);
      SectionNamesHold(named, last.sections);
    }
  }

  // ---------------------------------------------------------------------
  // The second walk: the levels.

  /** Two buffers that share neither themselves nor their arrays. */
  ghost predicate Apart(a: BinaryBuffer, b: BinaryBuffer)
    reads a, b
  {
    a != b && a.buf != b.buf
  }

  /** A marker: what a level's functions are is known where it names an
      entry. */
  predicate Mark<T>(x: T)
  {
    true
  }

  /** fid and fblock are the field level's functions: a field's id, and its
      block of value words. */
  ghost predicate FieldsAre(fid: CoalField -> uint16, fblock: CoalField -> seq<byte>, ids: map<Str, int>,
                            positions: map<Str, int>)
  {
    forall f {:trigger Mark(f)} :: fid(f) == IdOf(ids, f.name) && fblock(f) == WordsBytes(Words(positions, f.values))
  }

  /** sid and sblock are the section level's functions: a section's id, and
      its block, the field level of its fields. */
  ghost predicate SectionsAre(sid: CoalSection -> uint16, sblock: CoalSection -> seq<byte>, ids: map<Str, int>,
                              fid: CoalField -> uint16, fblock: CoalField -> seq<byte>)
  {
    forall s {:trigger Mark(s)} :: sid(s) == IdOf(ids, s.name) && sblock(s) == Level(fid, fblock, s.fields)
  }

  /** id and block are the file level's functions: a file's id, and its
      block, the section level of its sections. */
  ghost predicate FilesAre(id: CoalFile -> uint16, block: CoalFile -> seq<byte>, ids: map<Str, int>,
                           sid: CoalSection -> uint16, sblock: CoalSection -> seq<byte>)
  {
    forall f {:trigger Mark(f)} :: id(f) == IdOf(ids, f.fileName) && block(f) == Level(sid, sblock, f.sections)
  }

  /** The layout's functions are the levels' functions. */
  lemma {:induction false} LevelsAre(ids: map<Str, int>, positions: map<Str, int>)
    ensures FieldsAre(FieldId(ids), FieldBlock(positions), ids, positions)
    ensures SectionsAre(SectionId(ids), SectionBlock(ids, positions), ids, FieldId(ids), FieldBlock(positions))
    ensures FilesAre(FileId(ids), FileBlock(ids, positions), ids, SectionId(ids), SectionBlock(ids, positions))
  {
  }

  /** Every value of the fields is a key of the compressor. */
  predicate FieldsGathered(keys: seq<Str>, fields: seq<CoalField>)
  {
    forall f, v :: f in fields && v in f.values ==> v in keys
  }

  predicate SectionsGathered(keys: seq<Str>, sections: seq<CoalSection>)
  {
    forall s :: s in sections ==> FieldsGathered(keys, s.fields)
  }

  predicate FilesGathered(keys: seq<Str>, files: seq<CoalFile>)
  {
    forall f :: f in files ==> SectionsGathered(keys, f.sections)
  }

  lemma {:induction false} ConcatSnoc<T>(enc: T -> seq<byte>, xs: seq<T>, i: nat)
    requires i < |xs|
    ensures Concat(enc, xs[..i + 1]) == Concat(enc, xs[..i]) + enc(xs[i])
  {
    assert xs[..i + 1][..i] == xs[..i];
  }

  /** The next head of a level: the entry's id, then where its block
      starts (offset, computed by the caller). */
  lemma {:induction false} HeadsNext<T>(id: T -> uint16, enc: T -> seq<byte>, xs: seq<T>, i: nat, base: int,
                                        pre: seq<byte>, u: uint16, offset: int)
    requires i < |xs| && u == id(xs[i]) && offset == base + |Concat(enc, xs[..i])|
    ensures pre + Heads(id, enc, xs[..i], base) + UInt16Bytes(u) + Int32Bytes(offset)
         == pre + Heads(id, enc, xs[..i + 1], base)
  {
    assert xs[..i + 1][..i] == xs[..i];
  }

  /** One turn of a level's loop, in pure terms: the heads and the blocks
      written so far, c1 and c2, now cover xs[..i + 1]. */
  lemma {:induction false} StepDone<T>(id: T -> uint16, enc: T -> seq<byte>, xs: seq<T>, i: nat, pre: seq<byte>,
                                        c1: seq<byte>, c2: seq<byte>)
    requires i < |xs|
    requires c1 == pre + Heads(id, enc, xs[..i], 6 * |xs| + 2) + UInt16Bytes(id(xs[i]))
                  + Int32Bytes(6 * |xs| + 2 + |Concat(enc, xs[..i])|)
    requires c2 == Concat(enc, xs[..i]) + enc(xs[i])
    ensures c1 == pre + Heads(id, enc, xs[..i + 1], 6 * |xs| + 2)
    ensures c2 == Concat(enc, xs[..i + 1])
  {
    HeadsNext(id, enc, xs, i, 6 * |xs| + 2, pre, id(xs[i]), 6 * |xs| + 2 + |Concat(enc, xs[..i])|);
    ConcatSnoc(enc, xs, i);
  }

  /** A finished level: the count, all the heads, then all the blocks. */
  lemma {:induction false} LevelDone<T>(id: T -> uint16, enc: T -> seq<byte>, xs: seq<T>, pre: seq<byte>)
    ensures pre + UInt16Bytes(|xs| % 0x1_0000) + Heads(id, enc, xs, 6 * |xs| + 2) + Concat(enc, xs)
         == pre + Level(id, enc, xs)
  {
  }

  lemma {:induction false} WordsSnoc(positions: map<Str, int>, values: seq<Str>, i: nat)
    requires i < |values| && values[i] in positions
    ensures Concat(UInt32Bytes, Words(positions, values[..i + 1]))
         == Concat(UInt32Bytes, Words(positions, values[..i])) + UInt32Bytes(TagWord(positions[values[i]]))
  {
    assert values[..i + 1][..i] == values[..i];
    var words := Words(positions, values[..i + 1]);
    assert words[..i] == Words(positions, values[..i]);
    assert words[i] == TagWord(positions[values[i]]);
    ConcatSnoc(UInt32Bytes, words, i);
    assert words[..i + 1] == words;
  }

  /** WriteInt of a word's int value stores the word's own bytes. */
  lemma {:induction false} WordBytes(w: uint32)
    ensures Int32Bytes(Wrap32(w)) == UInt32Bytes(w)
  {
    Int32BytesWrap(w);
    assert Bits32(w) == w;
  }

  /** A head: the entry's id, then its block's offset as an int. */
  method WriteHead(buf: BinaryBuffer, u: uint16, offset: int)
    requires buf.Valid()
    modifies buf, buf.buf
    ensures buf.Valid() && (buf.buf == old(buf.buf) || fresh(buf.buf))
    ensures buf.Contents() == old(buf.Contents()) + UInt16Bytes(u) + Int32Bytes(offset)
  {
    buf.WriteUShort(u);
    buf.WriteInt(Wrap32(offset));
    Int32BytesWrap(offset);
  }

  /** The value loop's body: the value's position, tagged, after the
      words so far. */
  method WriteWord(fieldBuf: BinaryBuffer, compressor: HuffmanCompressor, values: seq<Str>, i: nat,
                   ghost pre: seq<byte>)
    requires i < |values| && fieldBuf.Valid() && compressor.Valid() && values[i] in compressor.keys
    requires fieldBuf.Contents() == pre + Concat(UInt32Bytes, Words(compressor.positions, values[..i]))
    modifies fieldBuf, fieldBuf.buf
    ensures fieldBuf.Valid() && (fieldBuf.buf == old(fieldBuf.buf) || fresh(fieldBuf.buf))
    ensures fieldBuf.Contents() == pre + Concat(UInt32Bytes, Words(compressor.positions, values[..i + 1]))
  {
    var position := compressor.GetStringPosition(values[i]);
    var word := TagWord(position.value);
    fieldBuf.WriteInt(Wrap32(word));
    WordBytes(word);
    WordsSnoc(compressor.positions, values, i);
  }

  /** A field's block: the value count, then each value's tagged position. */
  method WriteWords(fieldBuf: BinaryBuffer, compressor: HuffmanCompressor, field: CoalField)
    requires fieldBuf.Valid() && compressor.Valid()
    requires forall v :: v in field.values ==> v in compressor.keys
    modifies fieldBuf, fieldBuf.buf
    ensures fieldBuf.Valid() && (fieldBuf.buf == old(fieldBuf.buf) || fresh(fieldBuf.buf))
    ensures fieldBuf.Contents() == old(fieldBuf.Contents()) + WordsBytes(Words(compressor.positions, field.values))
  {
    var values := field.values;
    ghost var pre := old(fieldBuf.Contents()) + UInt16Bytes(|values| % 0x1_0000);
    fieldBuf.WriteUShort((|values| % 0x1_0000) as uint16);
    var i := 0;
    while i < |values|
      invariant 0 <= i <= |values| && fieldBuf.Valid()
      invariant fieldBuf.buf == old(fieldBuf.buf) || fresh(fieldBuf.buf)
      invariant fieldBuf.Contents() == pre + Concat(UInt32Bytes, Words(compressor.positions, values[..i]))
    {
      WriteWord(fieldBuf, compressor, values, i, pre);
      i := i + 1;
    }
    assert values[..i] == values;
  }

  /** The two buffers of the field level are ready and apart. */
  ghost predicate Ready2(a: BinaryBuffer, b: BinaryBuffer)
    reads a, b
  {
    a.Valid() && b.Valid() && Apart(a, b)
  }

  ghost predicate Ready3(a: BinaryBuffer, b: BinaryBuffer, c: BinaryBuffer)
    reads a, b, c
  {
    Ready2(a, b) && Ready2(a, c) && Ready2(b, c)
  }

  ghost predicate Ready4(a: BinaryBuffer, b: BinaryBuffer, c: BinaryBuffer, d: BinaryBuffer)
    reads a, b, c, d
  {
    Ready3(a, b, c) && Ready2(a, d) && Ready2(b, d) && Ready2(c, d)
  }

  // The field level: heads into sectionBuf, blocks into fieldBuf.

  /** The field loop's body: the field's id and block offset after heads,
      its block after blocks. */
  method WriteFieldEntry(sectionBuf: BinaryBuffer, fieldBuf: BinaryBuffer, table: StringTable,
                         compressor: HuffmanCompressor, fields: seq<CoalField>, i: nat,
                         ghost heads: seq<byte>, ghost blocks: seq<byte>,
                         ghost fid: CoalField -> uint16, ghost fblock: CoalField -> seq<byte>)
    requires i < |fields| && Ready2(sectionBuf, fieldBuf)
    requires table.Valid() && compressor.Valid() && FieldsGathered(compressor.keys, fields)
    requires FieldsAre(fid, fblock, table.ids, compressor.positions)
    requires sectionBuf.Contents() == heads && fieldBuf.Contents() == blocks
    modifies sectionBuf, sectionBuf.buf, fieldBuf, fieldBuf.buf
    ensures Ready2(sectionBuf, fieldBuf)
    ensures sectionBuf.buf == old(sectionBuf.buf) || fresh(sectionBuf.buf)
    ensures fieldBuf.buf == old(fieldBuf.buf) || fresh(fieldBuf.buf)
    ensures sectionBuf.Contents() == heads + UInt16Bytes(fid(fields[i])) + Int32Bytes(6 * |fields| + 2 + |blocks|)
    ensures fieldBuf.Contents() == blocks + fblock(fields[i])
  {
    assert Mark(fields[i]);
    var u := table.GetId(fields[i].name);
    var offset := |fields| * 6 + 2 + fieldBuf.len;
    WriteHead(sectionBuf, u, offset);
    assert fields[i] in fields;
    WriteWords(fieldBuf, compressor, fields[i]);
  }

  /** One turn of the field loop: the heads after pre and the blocks grow
      by fields[i]. */
  method WriteFieldStep(sectionBuf: BinaryBuffer, fieldBuf: BinaryBuffer, table: StringTable,
                        compressor: HuffmanCompressor, fields: seq<CoalField>, i: nat, ghost pre: seq<byte>,
                        ghost fid: CoalField -> uint16, ghost fblock: CoalField -> seq<byte>)
    requires i < |fields| && Ready2(sectionBuf, fieldBuf)
    requires table.Valid() && compressor.Valid() && FieldsGathered(compressor.keys, fields)
    requires FieldsAre(fid, fblock, table.ids, compressor.positions)
    requires sectionBuf.Contents() == pre + Heads(fid, fblock, fields[..i], 6 * |fields| + 2)
    requires fieldBuf.Contents() == Concat(fblock, fields[..i])
    modifies sectionBuf, sectionBuf.buf, fieldBuf, fieldBuf.buf
    ensures Ready2(sectionBuf, fieldBuf)
    ensures sectionBuf.buf == old(sectionBuf.buf) || fresh(sectionBuf.buf)
    ensures fieldBuf.buf == old(fieldBuf.buf) || fresh(fieldBuf.buf)
    ensures sectionBuf.Contents() == pre + Heads(fid, fblock, fields[..i + 1], 6 * |fields| + 2)
    ensures fieldBuf.Contents() == Concat(fblock, fields[..i + 1])
  {
    ghost var heads, blocks := pre + Heads(fid, fblock, fields[..i], 6 * |fields| + 2), Concat(fblock, fields[..i]);
    WriteFieldEntry(sectionBuf, fieldBuf, table, compressor, fields, i, heads, blocks, fid, fblock);
    StepDone(fid, fblock, fields, i, pre, sectionBuf.Contents(), fieldBuf.Contents());
  }

  /** The field loop, after the count: the heads go on after pre, the
      blocks into the cleared fieldBuf. */
  method WriteFields(sectionBuf: BinaryBuffer, fieldBuf: BinaryBuffer, table: StringTable,
                     compressor: HuffmanCompressor, fields: seq<CoalField>, ghost pre: seq<byte>,
                     ghost fid: CoalField -> uint16, ghost fblock: CoalField -> seq<byte>)
    requires Ready2(sectionBuf, fieldBuf)
    requires table.Valid() && compressor.Valid() && FieldsGathered(compressor.keys, fields)
    requires FieldsAre(fid, fblock, table.ids, compressor.positions)
    requires sectionBuf.Contents() == pre && fieldBuf.Contents() == []
    modifies sectionBuf, sectionBuf.buf, fieldBuf, fieldBuf.buf
    ensures Ready2(sectionBuf, fieldBuf)
    ensures sectionBuf.buf == old(sectionBuf.buf) || fresh(sectionBuf.buf)
    ensures fieldBuf.buf == old(fieldBuf.buf) || fresh(fieldBuf.buf)
    ensures sectionBuf.Contents() == pre + Heads(fid, fblock, fields, 6 * |fields| + 2)
    ensures fieldBuf.Contents() == Concat(fblock, fields)
  {
    var i := 0;
    while i < |fields|
      invariant 0 <= i <= |fields| && Ready2(sectionBuf, fieldBuf)
      invariant sectionBuf.buf == old(sectionBuf.buf) || fresh(sectionBuf.buf)
      invariant fieldBuf.buf == old(fieldBuf.buf) || fresh(fieldBuf.buf)
      invariant sectionBuf.Contents() == pre + Heads(fid, fblock, fields[..i], 6 * |fields| + 2)
      invariant fieldBuf.Contents() == Concat(fblock, fields[..i])
    {
      WriteFieldStep(sectionBuf, fieldBuf, table, compressor, fields, i, pre, fid, fblock);
      i := i + 1;
    }
    assert fields[..i] == fields;
  }

  /** A section's block: the field count, the heads, then the blocks that
      were gathered in fieldBuf (cleared first). */
  method WriteFieldLevel(sectionBuf: BinaryBuffer, fieldBuf: BinaryBuffer, table: StringTable,
                         compressor: HuffmanCompressor, section: CoalSection,
                         ghost fid: CoalField -> uint16, ghost fblock: CoalField -> seq<byte>)
    requires Ready2(sectionBuf, fieldBuf)
    requires table.Valid() && compressor.Valid() && FieldsGathered(compressor.keys, section.fields)
    requires FieldsAre(fid, fblock, table.ids, compressor.positions)
    modifies sectionBuf, sectionBuf.buf, fieldBuf, fieldBuf.buf
    ensures Ready2(sectionBuf, fieldBuf)
    ensures sectionBuf.buf == old(sectionBuf.buf) || fresh(sectionBuf.buf)
    ensures fieldBuf.buf == old(fieldBuf.buf) || fresh(fieldBuf.buf)
    ensures sectionBuf.Contents() == old(sectionBuf.Contents()) + Level(fid, fblock, section.fields)
  {
    var fields := section.fields;
    sectionBuf.WriteUShort((|fields| % 0x1_0000) as uint16);
    fieldBuf.Clear();
    WriteFields(sectionBuf, fieldBuf, table, compressor, fields, old(sectionBuf.Contents()) + UInt16Bytes(|fields| % 0x1_0000),
                fid, fblock);
    sectionBuf.WriteBuffer(fieldBuf);
    LevelDone(fid, fblock, fields, old(sectionBuf.Contents()));
  }

  // The section level: heads into fileBuf, blocks into sectionBuf.

  /** The section loop's body: the section's id and block offset after
      heads, its block (a field level) after blocks. */
  method WriteSectionEntry(fileBuf: BinaryBuffer, sectionBuf: BinaryBuffer, fieldBuf: BinaryBuffer,
                           table: StringTable, compressor: HuffmanCompressor, sections: seq<CoalSection>, i: nat,
                           ghost heads: seq<byte>, ghost blocks: seq<byte>,
                           ghost sid: CoalSection -> uint16, ghost sblock: CoalSection -> seq<byte>,
                           ghost fid: CoalField -> uint16, ghost fblock: CoalField -> seq<byte>)
    requires i < |sections| && Ready3(fileBuf, sectionBuf, fieldBuf)
    requires table.Valid() && compressor.Valid() && SectionsGathered(compressor.keys, sections)
    requires FieldsAre(fid, fblock, table.ids, compressor.positions)
    requires SectionsAre(sid, sblock, table.ids, fid, fblock)
    requires fileBuf.Contents() == heads && sectionBuf.Contents() == blocks
    modifies fileBuf, fileBuf.buf, sectionBuf, sectionBuf.buf, fieldBuf, fieldBuf.buf
    ensures Ready3(fileBuf, sectionBuf, fieldBuf)
    ensures fileBuf.buf == old(fileBuf.buf) || fresh(fileBuf.buf)
    ensures sectionBuf.buf == old(sectionBuf.buf) || fresh(sectionBuf.buf)
    ensures fieldBuf.buf == old(fieldBuf.buf) || fresh(fieldBuf.buf)
    ensures fileBuf.Contents() == heads + UInt16Bytes(sid(sections[i])) + Int32Bytes(6 * |sections| + 2 + |blocks|)
    ensures sectionBuf.Contents() == blocks + sblock(sections[i])
  {
    assert Mark(sections[i]);
    var u := table.GetId(sections[i].name);
    var offset := |sections| * 6 + 2 + sectionBuf.len;
    WriteHead(fileBuf, u, offset);
    assert sections[i] in sections;
    WriteFieldLevel(sectionBuf, fieldBuf, table, compressor, sections[i], fid, fblock);
  }

  /** One turn of the section loop. */
  method WriteSectionStep(fileBuf: BinaryBuffer, sectionBuf: BinaryBuffer, fieldBuf: BinaryBuffer,
                          table: StringTable, compressor: HuffmanCompressor, sections: seq<CoalSection>, i: nat,
                          ghost pre: seq<byte>,
                          ghost sid: CoalSection -> uint16, ghost sblock: CoalSection -> seq<byte>,
                          ghost fid: CoalField -> uint16, ghost fblock: CoalField -> seq<byte>)
    requires i < |sections| && Ready3(fileBuf, sectionBuf, fieldBuf)
    requires table.Valid() && compressor.Valid() && SectionsGathered(compressor.keys, sections)
    requires FieldsAre(fid, fblock, table.ids, compressor.positions)
    requires SectionsAre(sid, sblock, table.ids, fid, fblock)
    requires fileBuf.Contents() == pre + Heads(sid, sblock, sections[..i], 6 * |sections| + 2)
    requires sectionBuf.Contents() == Concat(sblock, sections[..i])
    modifies fileBuf, fileBuf.buf, sectionBuf, sectionBuf.buf, fieldBuf, fieldBuf.buf
    ensures Ready3(fileBuf, sectionBuf, fieldBuf)
    ensures fileBuf.buf == old(fileBuf.buf) || fresh(fileBuf.buf)
    ensures sectionBuf.buf == old(sectionBuf.buf) || fresh(sectionBuf.buf)
    ensures fieldBuf.buf == old(fieldBuf.buf) || fresh(fieldBuf.buf)
    ensures fileBuf.Contents() == pre + Heads(sid, sblock, sections[..i + 1], 6 * |sections| + 2)
    ensures sectionBuf.Contents() == Concat(sblock, sections[..i + 1])
  {
    ghost var heads, blocks := pre + Heads(sid, sblock, sections[..i], 6 * |sections| + 2), Concat(sblock, sections[..i]);
    WriteSectionEntry(fileBuf, sectionBuf, fieldBuf, table, compressor, sections, i, heads, blocks, sid, sblock, fid, fblock);
    StepDone(sid, sblock, sections, i, pre, fileBuf.Contents(), sectionBuf.Contents());
  }

  /** The section loop, after the count. */
  method WriteSections(fileBuf: BinaryBuffer, sectionBuf: BinaryBuffer, fieldBuf: BinaryBuffer,
                       table: StringTable, compressor: HuffmanCompressor, sections: seq<CoalSection>,
                       ghost pre: seq<byte>,
                       ghost sid: CoalSection -> uint16, ghost sblock: CoalSection -> seq<byte>,
                       ghost fid: CoalField -> uint16, ghost fblock: CoalField -> seq<byte>)
    requires Ready3(fileBuf, sectionBuf, fieldBuf)
    requires table.Valid() && compressor.Valid() && SectionsGathered(compressor.keys, sections)
    requires FieldsAre(fid, fblock, table.ids, compressor.positions)
    requires SectionsAre(sid, sblock, table.ids, fid, fblock)
    requires fileBuf.Contents() == pre && sectionBuf.Contents() == []
    modifies fileBuf, fileBuf.buf, sectionBuf, sectionBuf.buf, fieldBuf, fieldBuf.buf
    ensures Ready3(fileBuf, sectionBuf, fieldBuf)
    ensures fileBuf.buf == old(fileBuf.buf) || fresh(fileBuf.buf)
    ensures sectionBuf.buf == old(sectionBuf.buf) || fresh(sectionBuf.buf)
    ensures fieldBuf.buf == old(fieldBuf.buf) || fresh(fieldBuf.buf)
    ensures fileBuf.Contents() == pre + Heads(sid, sblock, sections, 6 * |sections| + 2)
    ensures sectionBuf.Contents() == Concat(sblock, sections)
  {
    var i := 0;
    while i < |sections|
      invariant 0 <= i <= |sections| && Ready3(fileBuf, sectionBuf, fieldBuf)
      invariant fileBuf.buf == old(fileBuf.buf) || fresh(fileBuf.buf)
      invariant sectionBuf.buf == old(sectionBuf.buf) || fresh(sectionBuf.buf)
      invariant fieldBuf.buf == old(fieldBuf.buf) || fresh(fieldBuf.buf)
      invariant fileBuf.Contents() == pre + Heads(sid, sblock, sections[..i], 6 * |sections| + 2)
      invariant sectionBuf.Contents() == Concat(sblock, sections[..i])
    {
      WriteSectionStep(fileBuf, sectionBuf, fieldBuf, table, compressor, sections, i, pre, sid, sblock, fid, fblock);
      i := i + 1;
    }
    assert sections[..i] == sections;
  }

  /** A file's block: the section count, the heads, then the section
      blocks gathered in sectionBuf (cleared first). */
  method WriteSectionLevel(fileBuf: BinaryBuffer, sectionBuf: BinaryBuffer, fieldBuf: BinaryBuffer,
                           table: StringTable, compressor: HuffmanCompressor, file: CoalFile,
                           ghost sid: CoalSection -> uint16, ghost sblock: CoalSection -> seq<byte>,
                           ghost fid: CoalField -> uint16, ghost fblock: CoalField -> seq<byte>)
    requires Ready3(fileBuf, sectionBuf, fieldBuf)
    requires table.Valid() && compressor.Valid() && SectionsGathered(compressor.keys, file.sections)
    requires FieldsAre(fid, fblock, table.ids, compressor.positions)
    requires SectionsAre(sid, sblock, table.ids, fid, fblock)
    modifies fileBuf, fileBuf.buf, sectionBuf, sectionBuf.buf, fieldBuf, fieldBuf.buf
    ensures Ready3(fileBuf, sectionBuf, fieldBuf)
    ensures fileBuf.buf == old(fileBuf.buf) || fresh(fileBuf.buf)
    ensures sectionBuf.buf == old(sectionBuf.buf) || fresh(sectionBuf.buf)
    ensures fieldBuf.buf == old(fieldBuf.buf) || fresh(fieldBuf.buf)
    ensures fileBuf.Contents() == old(fileBuf.Contents()) + Level(sid, sblock, file.sections)
  {
    var sections := file.sections;
    fileBuf.WriteUShort((|sections| % 0x1_0000) as uint16);
    sectionBuf.Clear();
    WriteSections(fileBuf, sectionBuf, fieldBuf, table, compressor, sections,
                  old(fileBuf.Contents()) + UInt16Bytes(|sections| % 0x1_0000), sid, sblock, fid, fblock);
    fileBuf.WriteBuffer(sectionBuf);
    LevelDone(sid, sblock, sections, old(fileBuf.Contents()));
  }

  // The file level: heads into treeBuf, blocks into fileBuf.

  /** The file loop's body: the file's id and block offset after heads,
      its block (a section level) after blocks. */
  method WriteFileEntry(treeBuf: BinaryBuffer, fileBuf: BinaryBuffer, sectionBuf: BinaryBuffer, fieldBuf: BinaryBuffer,
                        table: StringTable, compressor: HuffmanCompressor, files: seq<CoalFile>, i: nat,
                        ghost heads: seq<byte>, ghost blocks: seq<byte>,
                        ghost id: CoalFile -> uint16, ghost block: CoalFile -> seq<byte>,
                        ghost sid: CoalSection -> uint16, ghost sblock: CoalSection -> seq<byte>,
                        ghost fid: CoalField -> uint16, ghost fblock: CoalField -> seq<byte>)
    requires i < |files| && Ready4(treeBuf, fileBuf, sectionBuf, fieldBuf)
    requires table.Valid() && compressor.Valid() && FilesGathered(compressor.keys, files)
    requires FieldsAre(fid, fblock, table.ids, compressor.positions)
    requires SectionsAre(sid, sblock, table.ids, fid, fblock)
    requires FilesAre(id, block, table.ids, sid, sblock)
    requires treeBuf.Contents() == heads && fileBuf.Contents() == blocks
    modifies treeBuf, treeBuf.buf, fileBuf, fileBuf.buf, sectionBuf, sectionBuf.buf, fieldBuf, fieldBuf.buf
    ensures Ready4(treeBuf, fileBuf, sectionBuf, fieldBuf)
    ensures treeBuf.buf == old(treeBuf.buf) || fresh(treeBuf.buf)
    ensures fileBuf.buf == old(fileBuf.buf) || fresh(fileBuf.buf)
    ensures sectionBuf.buf == old(sectionBuf.buf) || fresh(sectionBuf.buf)
    ensures fieldBuf.buf == old(fieldBuf.buf) || fresh(fieldBuf.buf)
    ensures treeBuf.Contents() == heads + UInt16Bytes(id(files[i])) + Int32Bytes(6 * |files| + 2 + |blocks|)
    ensures fileBuf.Contents() == blocks + block(files[i])
  {
    assert Mark(files[i]);
    var u := table.GetId(files[i].fileName);
    var offset := |files| * 6 + 2 + fileBuf.len;
    WriteHead(treeBuf, u, offset);
    assert files[i] in files;
    WriteSectionLevel(fileBuf, sectionBuf, fieldBuf, table, compressor, files[i], sid, sblock, fid, fblock);
  }

  /** One turn of the file loop. */
  method WriteFileStep(treeBuf: BinaryBuffer, fileBuf: BinaryBuffer, sectionBuf: BinaryBuffer, fieldBuf: BinaryBuffer,
                       table: StringTable, compressor: HuffmanCompressor, files: seq<CoalFile>, i: nat,
                       ghost pre: seq<byte>,
                        ghost id: CoalFile -> uint16, ghost block: CoalFile -> seq<byte>,
                        ghost sid: CoalSection -> uint16, ghost sblock: CoalSection -> seq<byte>,
                        ghost fid: CoalField -> uint16, ghost fblock: CoalField -> seq<byte>)
    requires i < |files| && Ready4(treeBuf, fileBuf, sectionBuf, fieldBuf)
    requires table.Valid() && compressor.Valid() && FilesGathered(compressor.keys, files)
    requires FieldsAre(fid, fblock, table.ids, compressor.positions)
    requires SectionsAre(sid, sblock, table.ids, fid, fblock)
    requires FilesAre(id, block, table.ids, sid, sblock)
    requires treeBuf.Contents() == pre + Heads(id, block, files[..i], 6 * |files| + 2)
    requires fileBuf.Contents() == Concat(block, files[..i])
    modifies treeBuf, treeBuf.buf, fileBuf, fileBuf.buf, sectionBuf, sectionBuf.buf, fieldBuf, fieldBuf.buf
    ensures Ready4(treeBuf, fileBuf, sectionBuf, fieldBuf)
    ensures treeBuf.buf == old(treeBuf.buf) || fresh(treeBuf.buf)
    ensures fileBuf.buf == old(fileBuf.buf) || fresh(fileBuf.buf)
    ensures sectionBuf.buf == old(sectionBuf.buf) || fresh(sectionBuf.buf)
    ensures fieldBuf.buf == old(fieldBuf.buf) || fresh(fieldBuf.buf)
    ensures treeBuf.Contents() == pre + Heads(id, block, files[..i + 1], 6 * |files| + 2)
    ensures fileBuf.Contents() == Concat(block, files[..i + 1])
  {
    ghost var heads, blocks := pre + Heads(id, block, files[..i], 6 * |files| + 2), Concat(block, files[..i]);
    WriteFileEntry(treeBuf, fileBuf, sectionBuf, fieldBuf, table, compressor, files, i, heads, blocks, id, block, sid, sblock, fid, fblock);
    StepDone(id, block, files, i, pre, treeBuf.Contents(), fileBuf.Contents());
  }

  /** The file loop, after the count; fileBuf starts empty and is never
      cleared. */
  method WriteFiles(treeBuf: BinaryBuffer, fileBuf: BinaryBuffer, sectionBuf: BinaryBuffer, fieldBuf: BinaryBuffer,
                    table: StringTable, compressor: HuffmanCompressor, files: seq<CoalFile>, ghost pre: seq<byte>,
                        ghost id: CoalFile -> uint16, ghost block: CoalFile -> seq<byte>,
                        ghost sid: CoalSection -> uint16, ghost sblock: CoalSection -> seq<byte>,
                        ghost fid: CoalField -> uint16, ghost fblock: CoalField -> seq<byte>)
    requires Ready4(treeBuf, fileBuf, sectionBuf, fieldBuf)
    requires table.Valid() && compressor.Valid() && FilesGathered(compressor.keys, files)
    requires FieldsAre(fid, fblock, table.ids, compressor.positions)
    requires SectionsAre(sid, sblock, table.ids, fid, fblock)
    requires FilesAre(id, block, table.ids, sid, sblock)
    requires treeBuf.Contents() == pre && fileBuf.Contents() == []
    modifies treeBuf, treeBuf.buf, fileBuf, fileBuf.buf, sectionBuf, sectionBuf.buf, fieldBuf, fieldBuf.buf
    ensures Ready4(treeBuf, fileBuf, sectionBuf, fieldBuf)
    ensures treeBuf.buf == old(treeBuf.buf) || fresh(treeBuf.buf)
    ensures fileBuf.buf == old(fileBuf.buf) || fresh(fileBuf.buf)
    ensures sectionBuf.buf == old(sectionBuf.buf) || fresh(sectionBuf.buf)
    ensures fieldBuf.buf == old(fieldBuf.buf) || fresh(fieldBuf.buf)
    ensures treeBuf.Contents() == pre + Heads(id, block, files, 6 * |files| + 2)
    ensures fileBuf.Contents() == Concat(block, files)
  {
    var i := 0;
    while i < |files|
      invariant 0 <= i <= |files| && Ready4(treeBuf, fileBuf, sectionBuf, fieldBuf)
      invariant treeBuf.buf == old(treeBuf.buf) || fresh(treeBuf.buf)
      invariant fileBuf.buf == old(fileBuf.buf) || fresh(fileBuf.buf)
      invariant sectionBuf.buf == old(sectionBuf.buf) || fresh(sectionBuf.buf)
      invariant fieldBuf.buf == old(fieldBuf.buf) || fresh(fieldBuf.buf)
      invariant treeBuf.Contents() == pre + Heads(id, block, files[..i], 6 * |files| + 2)
      invariant fileBuf.Contents() == Concat(block, files[..i])
    {
      WriteFileStep(treeBuf, fileBuf, sectionBuf, fieldBuf, table, compressor, files, i, pre, id, block, sid, sblock, fid, fblock);
      i := i + 1;
    }
    assert files[..i] == files;
  }

  /** A file level: the file count, the file heads, then the file blocks
      gathered in the empty fileBuf. */
  method WriteFileLevel(treeBuf: BinaryBuffer, fileBuf: BinaryBuffer, sectionBuf: BinaryBuffer, fieldBuf: BinaryBuffer,
                        table: StringTable, compressor: HuffmanCompressor, files: seq<CoalFile>,
                        ghost id: CoalFile -> uint16, ghost block: CoalFile -> seq<byte>,
                        ghost sid: CoalSection -> uint16, ghost sblock: CoalSection -> seq<byte>,
                        ghost fid: CoalField -> uint16, ghost fblock: CoalField -> seq<byte>)
    requires Ready4(treeBuf, fileBuf, sectionBuf, fieldBuf) && fileBuf.Contents() == []
    requires table.Valid() && compressor.Valid() && FilesGathered(compressor.keys, files)
    requires FieldsAre(fid, fblock, table.ids, compressor.positions)
    requires SectionsAre(sid, sblock, table.ids, fid, fblock)
    requires FilesAre(id, block, table.ids, sid, sblock)
    modifies treeBuf, treeBuf.buf, fileBuf, fileBuf.buf, sectionBuf, sectionBuf.buf, fieldBuf, fieldBuf.buf
    ensures Ready4(treeBuf, fileBuf, sectionBuf, fieldBuf)
    ensures treeBuf.buf == old(treeBuf.buf) || fresh(treeBuf.buf)
    ensures fileBuf.buf == old(fileBuf.buf) || fresh(fileBuf.buf)
    ensures sectionBuf.buf == old(sectionBuf.buf) || fresh(sectionBuf.buf)
    ensures fieldBuf.buf == old(fieldBuf.buf) || fresh(fieldBuf.buf)
    ensures treeBuf.Contents() == old(treeBuf.Contents()) + Level(id, block, files)
  {
    treeBuf.WriteUShort((|files| % 0x1_0000) as uint16);
    WriteFiles(treeBuf, fileBuf, sectionBuf, fieldBuf, table, compressor, files, old(treeBuf.Contents()) + UInt16Bytes(|files| % 0x1_0000),
               id, block, sid, sblock, fid, fblock);
    treeBuf.WriteBuffer(fileBuf);
    LevelDone(id, block, files, old(treeBuf.Contents()));
  }

  /** The tree: the file count, the file heads, then the file blocks, each
      a section level whose blocks are field levels, whose blocks are the
      value words. */
  method WriteTreeLevels(treeBuf: BinaryBuffer, fileBuf: BinaryBuffer, sectionBuf: BinaryBuffer, fieldBuf: BinaryBuffer,
                         table: StringTable, compressor: HuffmanCompressor, files: seq<CoalFile>)
    requires Ready4(treeBuf, fileBuf, sectionBuf, fieldBuf) && fileBuf.Contents() == []
    requires table.Valid() && compressor.Valid() && FilesGathered(compressor.keys, files)
    modifies treeBuf, treeBuf.buf, fileBuf, fileBuf.buf, sectionBuf, sectionBuf.buf, fieldBuf, fieldBuf.buf
    ensures Ready4(treeBuf, fileBuf, sectionBuf, fieldBuf)
    ensures treeBuf.buf == old(treeBuf.buf) || fresh(treeBuf.buf)
    ensures fileBuf.buf == old(fileBuf.buf) || fresh(fileBuf.buf)
    ensures sectionBuf.buf == old(sectionBuf.buf) || fresh(sectionBuf.buf)
    ensures fieldBuf.buf == old(fieldBuf.buf) || fresh(fieldBuf.buf)
    ensures treeBuf.Contents() == old(treeBuf.Contents()) + TreeBytes(table.ids, compressor.positions, files)
  {
    LevelsAre(table.ids, compressor.positions);
    WriteFileLevel(treeBuf, fileBuf, sectionBuf, fieldBuf, table, compressor, files,
                   FileId(table.ids), FileBlock(table.ids, compressor.positions),
                   SectionId(table.ids), SectionBlock(table.ids, compressor.positions),
                   FieldId(table.ids), FieldBlock(compressor.positions));
  }

  /** The four buffers of WriteTree, new, and the tree written into the
      first. */
  method NewTree(table: StringTable, compressor: HuffmanCompressor, files: seq<CoalFile>) returns (treeBuf: BinaryBuffer)
    requires table.Valid() && compressor.Valid() && FilesGathered(compressor.keys, files)
    ensures fresh(treeBuf) && fresh(treeBuf.buf) && treeBuf.Valid()
    ensures treeBuf.Contents() == TreeBytes(table.ids, compressor.positions, files)
  {
    treeBuf := new BinaryBuffer();
    var fileBuf := new BinaryBuffer();
    var sectionBuf := new BinaryBuffer();
    var fieldBuf := new BinaryBuffer();
    WriteTreeLevels(treeBuf, fileBuf, sectionBuf, fieldBuf, table, compressor, files);
  }

  // ---------------------------------------------------------------------
  // WriteStringTable.

  /** The crc table is the one Crc32 generates. */
  ghost predicate CrcTable(crcTable: array<bv32>)
    reads crcTable
  {
    crcTable.Length == 256 && forall k :: 0 <= k < 256 ==> crcTable[k] == TableEntry(k)
  }

  /** The crc table is not the buffer's array (arrays of different element
      types are not told apart by the verifier). */
  ghost predicate Away(crcTable: array<bv32>, b: BinaryBuffer)
    reads b
  {
    crcTable as object != b.buf as object
  }

  /** One more name: one more index entry. */
  lemma {:induction false} IndexSnoc(names: seq<Str>, i: nat, base: int)
    requires i < |names|
    ensures IndexBytes(names[..i + 1], base)
         == IndexBytes(names[..i], base) + EntryBytes(IndexEntryFor(names[..i], names[i], base))
  {
    assert names[..i + 1][..i] == names[..i];
    var es := Entries(names[..i], base) + [IndexEntryFor(names[..i], names[i], base)];
    assert Entries(names[..i + 1], base) == es;
    assert es[..|es| - 1] == Entries(names[..i], base);
  }

  /** One turn of the index loop, in pure terms. */
  lemma {:induction false} EntryDone(names: seq<Str>, i: nat, offset: int, c1: seq<byte>, c2: seq<byte>)
    requires i < |names| && offset == 8 * |names| + |NamesBytes(names[..i])|
    requires c1 == IndexBytes(names[..i], 8 * |names|) + UInt32Bytes(Crc(names[i])) + Int32Bytes(Wrap32(offset))
    requires c2 == NamesBytes(names[..i]) + EncodeME3(names[i])
    ensures c1 == IndexBytes(names[..i + 1], 8 * |names|)
    ensures c2 == NamesBytes(names[..i + 1])
  {
    IndexSnoc(names, i, 8 * |names|);
    Int32BytesWrap(offset);
    ConcatSnoc(EncodeME3, names, i);
  }

  /** The loop body of WriteStringTable: the name's CRC and offset into
      the index, its bytes into the string area, and the offset moved on by
      as many bytes as were written. */
  method WriteEntry(crcTable: array<bv32>, indexBuf: BinaryBuffer, strBuf: BinaryBuffer, names: seq<Str>, i: nat,
                    offset: int) returns (next: int)
    requires CrcTable(crcTable) && i < |names| && Ready2(indexBuf, strBuf)
    requires Away(crcTable, indexBuf) && Away(crcTable, strBuf)
    requires indexBuf.Contents() == IndexBytes(names[..i], 8 * |names|)
    requires strBuf.Contents() == NamesBytes(names[..i])
    requires offset == 8 * |names| + |NamesBytes(names[..i])|
    modifies indexBuf, indexBuf.buf, strBuf, strBuf.buf
    ensures Ready2(indexBuf, strBuf)
    ensures indexBuf.buf == old(indexBuf.buf) || fresh(indexBuf.buf)
    ensures strBuf.buf == old(strBuf.buf) || fresh(strBuf.buf)
    ensures indexBuf.Contents() == IndexBytes(names[..i + 1], 8 * |names|)
    ensures strBuf.Contents() == NamesBytes(names[..i + 1])
    ensures next == 8 * |names| + |NamesBytes(names[..i + 1])|
  {
    var hash := Hash(crcTable, names[i]);
    indexBuf.WriteUInt(hash as uint32);
    indexBuf.WriteInt(Wrap32(offset));
    var beforeLen := strBuf.len;
    strBuf.WriteME3String(names[i]);
    var strLen := strBuf.len - beforeLen;
    next := offset + strLen;
    EntryDone(names, i, offset, indexBuf.Contents(), strBuf.Contents());
  }

  /** The index and the string area of the names, in two buffers. */
  method WriteIndex(crcTable: array<bv32>, indexBuf: BinaryBuffer, strBuf: BinaryBuffer, names: seq<Str>)
    requires CrcTable(crcTable) && Ready2(indexBuf, strBuf)
    requires Away(crcTable, indexBuf) && Away(crcTable, strBuf)
    requires indexBuf.Contents() == [] && strBuf.Contents() == []
    modifies indexBuf, indexBuf.buf, strBuf, strBuf.buf
    ensures Ready2(indexBuf, strBuf)
    ensures indexBuf.buf == old(indexBuf.buf) || fresh(indexBuf.buf)
    ensures strBuf.buf == old(strBuf.buf) || fresh(strBuf.buf)
    ensures indexBuf.Contents() == IndexBytes(names, 8 * |names|)
    ensures strBuf.Contents() == NamesBytes(names)
  {
    var stringOffset := |names| * 8;
    var i := 0;
    while i < |names|
      invariant 0 <= i <= |names| && Ready2(indexBuf, strBuf)
      invariant indexBuf.buf == old(indexBuf.buf) || fresh(indexBuf.buf)
      invariant strBuf.buf == old(strBuf.buf) || fresh(strBuf.buf)
      invariant indexBuf.Contents() == IndexBytes(names[..i], 8 * |names|)
      invariant strBuf.Contents() == NamesBytes(names[..i])
      invariant stringOffset == 8 * |names| + |NamesBytes(names[..i])|
      invariant CrcTable(crcTable) && Away(crcTable, indexBuf) && Away(crcTable, strBuf)
    {
      stringOffset := WriteEntry(crcTable, indexBuf, strBuf, names, i, stringOffset);
      i := i + 1;
    }
    assert names[..i] == names;
  }

  /** The length WriteStringTable computes from its two buffers is the
      table's length. */
  lemma {:induction false} LengthOfTable(names: seq<Str>, n: int)
    requires n == |IndexBytes(names, 8 * |names|)| + |NamesBytes(names)| + 8
    ensures n == TableLength(names)
  {
    EntriesLength(Entries(names, 8 * |names|));
  }

  /** The table's bytes, in pure terms: the two ints, then the parts. */
  lemma {:induction false} TableDone(names: seq<Str>, n: int, index: seq<byte>, area: seq<byte>, c: seq<byte>)
    requires index == IndexBytes(names, 8 * |names|) && area == NamesBytes(names)
    requires n == |index| + |area| + 8
    requires c == Int32Bytes(Wrap32(n)) + Int32Bytes(Wrap32(|names|)) + index + area
    ensures c == StringTableBytes(names)
  {
    Int32BytesWrap(n);
    Int32BytesWrap(|names|);
  }

  /** The tail of WriteStringTable: two ints, then the two buffers. */
  method WriteTableParts(buf: BinaryBuffer, length: int32, count: int32, indexBuf: BinaryBuffer, strBuf: BinaryBuffer,
                         ghost index: seq<byte>, ghost area: seq<byte>)
    requires Ready3(buf, indexBuf, strBuf)
    requires buf.Contents() == [] && indexBuf.Contents() == index && strBuf.Contents() == area
    modifies buf, buf.buf
    ensures buf.Valid() && (buf.buf == old(buf.buf) || fresh(buf.buf))
    ensures buf.Contents() == Int32Bytes(length) + Int32Bytes(count) + index + area
  {
    buf.WriteInt(length);
    buf.WriteInt(count);
    buf.WriteBuffer(indexBuf);
    buf.WriteBuffer(strBuf);
  }

  /** WriteStringTable: the index and the names, then a buffer as large as
      the table, which `new BinaryBuffer` refuses when that size is
      negative as an int; the table length and the name count go ahead of
      the two parts. */
  method WriteTable(crcTable: array<bv32>, names: seq<Str>) returns (r: Result<BinaryBuffer>)
    requires CrcTable(crcTable)
    ensures r.Err? <==> Wrap32(TableLength(names)) < 0
    ensures r.Err? ==> r.error == ArgumentOutOfRange
    ensures r.Ok? ==> fresh(r.value) && fresh(r.value.buf) && r.value.Valid()
    ensures r.Ok? ==> r.value.Contents() == StringTableBytes(names)
  {
    var indexBuf := new BinaryBuffer();
    var strBuf := new BinaryBuffer();
    WriteIndex(crcTable, indexBuf, strBuf, names);
    ghost var index, area := indexBuf.Contents(), strBuf.Contents();
    var length := indexBuf.len + strBuf.len + 8;
    LengthOfTable(names, length);
    var stringTableLength := Wrap32(length);
    var buf :- BinaryBuffer.Create(stringTableLength);
    WriteTableParts(buf, stringTableLength, Wrap32(|names|), indexBuf, strBuf, index, area);
    TableDone(names, length, index, area, buf.Contents());
    return Ok(buf);
  }

  // ---------------------------------------------------------------------
  // WriteHeader's scan for the longest field name and value.

  /** The innermost loop: the longest value of a field so far. */
  method LongestValue(values: seq<Str>, m: int) returns (longest: int)
    ensures longest == ValuesMax(values, m)
  {
    longest := m;
    var i := 0;
    while i < |values|
      invariant 0 <= i <= |values| && longest == ValuesMax(values[..i], m)
    {
      assert values[..i + 1][..i] == values[..i];
      if |values[i]| > longest {
        longest := |values[i]|;
      }
      i := i + 1;
    }
    assert values[..i] == values;
  }

  /** The field loop: a longer name, then the field's values. */
  method LongestInFields(fields: seq<CoalField>, m: (int, int)) returns (longest: (int, int))
    ensures longest == FieldsMax(fields, m)
  {
    longest := m;
    var i := 0;
    while i < |fields|
      invariant 0 <= i <= |fields| && longest == FieldsMax(fields[..i], m)
    {
      assert fields[..i + 1][..i] == fields[..i];
      var name := longest.0;
      if |fields[i].name| > name {
        name := |fields[i].name|;
      }
      var value := LongestValue(fields[i].values, longest.1);
      longest := (name, value);
      i := i + 1;
    }
    assert fields[..i] == fields;
  }

  method LongestInSections(sections: seq<CoalSection>, m: (int, int)) returns (longest: (int, int))
    ensures longest == SectionsMax(sections, m)
  {
    longest := m;
    var i := 0;
    while i < |sections|
      invariant 0 <= i <= |sections| && longest == SectionsMax(sections[..i], m)
    {
      assert sections[..i + 1][..i] == sections[..i];
      longest := LongestInFields(sections[i].fields, longest);
      i := i + 1;
    }
    assert sections[..i] == sections;
  }

  /** The whole scan, from (0, 0). */
  method LongestInFiles(files: seq<CoalFile>, m: (int, int)) returns (longest: (int, int))
    ensures longest == FilesMax(files, m)
  {
    longest := m;
    var i := 0;
    while i < |files|
      invariant 0 <= i <= |files| && longest == FilesMax(files[..i], m)
    {
      assert files[..i + 1][..i] == files[..i];
      longest := LongestInSections(files[i].sections, longest);
      i := i + 1;
    }
    assert files[..i] == files;
  }

  // ---------------------------------------------------------------------
  // The header, the Huffman nodes and the compressed data.

  /** The header's words, in pure terms. */
  lemma {:induction false} HeaderDone(h: FileHeader, pre: seq<byte>, c: seq<byte>)
    requires c == pre + Int32Bytes(ME3Signature) + Int32Bytes(Version)
                  + Int32Bytes(Wrap32(h.maxFieldNameLength)) + Int32Bytes(Wrap32(h.maxFieldValueLength))
                  + Int32Bytes(Wrap32(h.stringSectionLength)) + Int32Bytes(Wrap32(h.huffmanNodesLength))
                  + Int32Bytes(Wrap32(h.treeSectionLength)) + Int32Bytes(Wrap32(h.compressedDataLength))
    ensures c == pre + HeaderBytes(h)
  {
    Int32BytesWrap(h.maxFieldNameLength);
    Int32BytesWrap(h.maxFieldValueLength);
    Int32BytesWrap(h.stringSectionLength);
    Int32BytesWrap(h.huffmanNodesLength);
    Int32BytesWrap(h.treeSectionLength);
    Int32BytesWrap(h.compressedDataLength);
  }

  /** Four WriteInt calls in a row. */
  method WriteFourInts(buf: BinaryBuffer, a: int32, b: int32, c: int32, d: int32)
    requires buf.Valid()
    modifies buf, buf.buf
    ensures buf.Valid() && (buf.buf == old(buf.buf) || fresh(buf.buf))
    ensures buf.Contents() == old(buf.Contents()) + Int32Bytes(a) + Int32Bytes(b) + Int32Bytes(c) + Int32Bytes(d)
  {
    buf.WriteInt(a);
    buf.WriteInt(b);
    buf.WriteInt(c);
    buf.WriteInt(d);
  }

  /** WriteHeader's eight WriteInt calls. */
  method WriteHeaderWords(buf: BinaryBuffer, h: FileHeader)
    requires buf.Valid()
    modifies buf, buf.buf
    ensures buf.Valid() && (buf.buf == old(buf.buf) || fresh(buf.buf))
    ensures buf.Contents() == old(buf.Contents()) + HeaderBytes(h)
  {
    WriteFourInts(buf, ME3Signature, Version, Wrap32(h.maxFieldNameLength), Wrap32(h.maxFieldValueLength));
    WriteFourInts(buf, Wrap32(h.stringSectionLength), Wrap32(h.huffmanNodesLength),
                  Wrap32(h.treeSectionLength), Wrap32(h.compressedDataLength));
    HeaderDone(h, old(buf.Contents()), buf.Contents());
  }

  /** WriteHuffmanNodes: the pair count as a ushort, then every slot. */
  method WriteNodes(buf: BinaryBuffer, nodes: seq<int>)
    requires buf.Valid()
    modifies buf, buf.buf
    ensures buf.Valid() && (buf.buf == old(buf.buf) || fresh(buf.buf))
    ensures buf.Contents() == old(buf.Contents()) + NodesBytes(nodes)
  {
    buf.WriteUShort(((|nodes| / 2) % 0x1_0000) as uint16);
    ghost var pre := buf.Contents();
    var i := 0;
    while i < |nodes|
      invariant 0 <= i <= |nodes| && buf.Valid() && (buf.buf == old(buf.buf) || fresh(buf.buf))
      invariant buf.Contents() == pre + Concat(Int32Bytes, nodes[..i])
    {
      buf.WriteInt(Wrap32(nodes[i]));
      Int32BytesWrap(nodes[i]);
      ConcatSnoc(Int32Bytes, nodes, i);
      i := i + 1;
    }
    assert nodes[..i] == nodes;
  }

  /** WriteCompressedData: the byte count, then the bytes. */
  method WriteData(buf: BinaryBuffer, data: seq<byte>)
    requires buf.Valid()
    modifies buf, buf.buf
    ensures buf.Valid() && (buf.buf == old(buf.buf) || fresh(buf.buf))
    ensures buf.Contents() == old(buf.Contents()) + DataBytes(data)
  {
    buf.WriteInt(Wrap32(|data|));
    Int32BytesWrap(|data|);
    buf.WriteBytes(data);
  }

  /** WriteHeader: the longest field name and value over the document,
      then the eight words; the section lengths come from the buffers and
      the compressor. */
  method WriteHeader(buf: BinaryBuffer, files: seq<CoalFile>, tableLength: int, nodeCount: int, treeLength: int,
                     dataLength: int)
    requires buf.Valid()
    modifies buf, buf.buf
    ensures buf.Valid() && (buf.buf == old(buf.buf) || fresh(buf.buf))
    ensures buf.Contents() == old(buf.Contents()) + HeaderBytes(
              FileHeader(FilesMax(files, (0, 0)).0, FilesMax(files, (0, 0)).1, tableLength, nodeCount * 4 + 2,
                         treeLength, dataLength))
  {
    var longest := LongestInFiles(files, (0, 0));
    WriteHeaderWords(buf, FileHeader(longest.0, longest.1, tableLength, nodeCount * 4 + 2, treeLength, dataLength));
  }

  /** The sections behind the header: the string table, the nodes, the
      tree, then the compressed data. */
  method WriteBody(buf: BinaryBuffer, table: BinaryBuffer, tree: BinaryBuffer, nodes: seq<int>, data: seq<byte>)
    requires buf.Valid() && table.Valid() && tree.Valid() && Apart(buf, table) && Apart(buf, tree)
    modifies buf, buf.buf
    ensures buf.Valid() && (buf.buf == old(buf.buf) || fresh(buf.buf))
    ensures buf.Contents() == old(buf.Contents()) + table.Contents() + NodesBytes(nodes) + tree.Contents() + DataBytes(data)
  {
    ghost var t, tr := table.Contents(), tree.Contents();
    buf.WriteBuffer(table);
    WriteNodes(buf, nodes);
    buf.WriteBuffer(tree);
    assert buf.Contents() == old(buf.Contents()) + t + NodesBytes(nodes) + tr;
    WriteData(buf, data);
  }

  /** The archive Save writes from the two finished buffers and what the
      compressor holds: the header, then the sections. */
  method WriteArchive(files: seq<CoalFile>, tableBuf: BinaryBuffer, treeBuf: BinaryBuffer, nodes: seq<int>,
                      data: seq<byte>, ghost table: seq<byte>, ghost tree: seq<byte>)
    returns (bytes: seq<byte>)
    requires tableBuf.Valid() && treeBuf.Valid() && tableBuf.Contents() == table && treeBuf.Contents() == tree
    ensures bytes == HeaderBytes(FileHeader(FilesMax(files, (0, 0)).0, FilesMax(files, (0, 0)).1, |table|,
                                            |nodes| * 4 + 2, |tree|, |data|))
                     + table + NodesBytes(nodes) + tree + DataBytes(data)
  {
    ghost var h := FileHeader(FilesMax(files, (0, 0)).0, FilesMax(files, (0, 0)).1, |table|, |nodes| * 4 + 2, |tree|,
                              |data|);
    var buf := new BinaryBuffer();
    WriteHeader(buf, files, tableBuf.len, |nodes|, treeBuf.len, |data|);
    assert buf.Contents() == HeaderBytes(h);
    WriteBody(buf, tableBuf, treeBuf, nodes, data);
    bytes := buf.Contents();
  }

  /** The archive, in pure terms: SaveBytes of the table's names and ids
      and of what the compressor holds. */
  lemma {:induction false} SaveDone(names: seq<Str>, ids: map<Str, int>, nodes: seq<int>, positions: map<Str, int>,
                                    data: seq<byte>, files: seq<CoalFile>, table: seq<byte>, tree: seq<byte>,
                                    bytes: seq<byte>)
    requires table == StringTableBytes(names) && tree == TreeBytes(ids, positions, files)
    requires bytes == HeaderBytes(FileHeader(FilesMax(files, (0, 0)).0, FilesMax(files, (0, 0)).1, |table|,
                                             |nodes| * 4 + 2, |tree|, |data|))
                      + table + NodesBytes(nodes) + tree + DataBytes(data)
    ensures bytes == SaveBytes(names, ids, nodes, positions, data, files)
  {
  }
}
