/** CoalescedConverterME3LE: the older converter for the ME3 archive. Its
    Decode reads the same header, index, Huffman nodes, tree and compressed
    bits as ME3Converter.Load, but keeps the names in a plain list (UTF-8,
    as read, duplicates and all), decodes every value word without looking
    at its type nibble, and writes the INI text with a header for a file
    with no sections and an empty value for a field with none. Its Encode
    only builds the document from INI text, merging neighbours of the same
    name; it writes no archive. */
module CoalescedME3LEConversion {
  import opened Wrappers
  import opened Primitives
  import opened Formats
  import opened ByteCodec
  import opened Crc32
  import opened Document
  import opened CoalescedStream
  import opened ME3Layout
  import opened HuffmanDecompression
  import opened FormatDetection
  import Utf8
  import Ini
  import ME3
  import DocumentRoundTrip
  import CoalescedME12LEConversion

  // ---------------------------------------------------------------------
  // The string list.

  /** A name of the string area at rel: a two-byte unsigned length (a byte
      outside the area is an index fault), then that many bytes of UTF-8,
      which `Encoding.GetString` refuses with ArgumentOutOfRangeException
      when they run past the area. */
  function Utf8NameAt(area: seq<byte>, rel: nat): Result<Str>
  {
    if rel + 2 > |area| then Err(IndexOutOfRange)
    else
      var length := DecodeUInt16(area[rel], area[rel + 1]);
      if rel + 2 + length > |area| then Err(ArgumentOutOfRange)
      else Ok(Utf8.Decode(area[rel + 2..rel + 2 + length]))
  }

  /** The name of an index entry, if it hashes to the entry's CRC. */
  function CheckedUtf8Name(area: seq<byte>, e: IndexEntry, indexLength: uint32): Result<Str>
  {
    var s :- Utf8NameAt(area, AreaOffset(e, indexLength));
    if Crc(s) != e.crc then Err(CoalescedRead(CrcMismatch(e.crc, Crc(s)))) else Ok(s)
  }

  /** The CRC test of the name loop over the area. */
  function NameCheck(area: seq<byte>, indexLength: uint32): IndexEntry -> Result<Str>
  {
    e => CheckedUtf8Name(area, e, indexLength)
  }

  /** The name loop from entry k on: each entry's name, as check reads it
      (CheckedUtf8Name on the area), is appended to the list as it is. */
  function ListNames(check: IndexEntry -> Result<Str>, index: seq<IndexEntry>, k: nat, names: seq<Str>)
    : Result<seq<Str>>
    requires k <= |index|
    decreases |index| - k
  {
    if k == |index| then Ok(names)
    else
      var s :- check(index[k]);
      ListNames(check, index, k + 1, names + [s])
  }

  /** After the index: the area, sized as in ME3Converter (a negative size
      cannot be allocated); `new List<string>((int)numStrings)` refuses a
      count that is negative as an int; then the names. */
  function ReadListAreaAt(d: seq<byte>, p: nat, tableLength: int32, numStrings: uint32, index: seq<IndexEntry>)
    : Result<(seq<Str>, nat)>
  {
    var area :- ReadBytesAt(d, p, tableLength - Bits32(8 * numStrings) - 8);
    if numStrings >= 0x8000_0000 then Err(ArgumentOutOfRange)
    else
      var names :- ListNames(NameCheck(area.0, Bits32(8 * numStrings)), index, 0, []);
      Ok((names, area.1))
  }

  /** ReadStringTable: the table length and the name count, the index,
      then the area and its names. */
  function ReadListTableAt(d: seq<byte>, p: nat): Result<(seq<Str>, nat)>
  {
    var tableLength :- ReadInt32At(d, p);
    var numStrings :- ReadUInt32At(d, tableLength.1);
    var index :- ReadIndexAt(d, numStrings.1, numStrings.0, Bits32(2 * numStrings.0), []);
    ReadListAreaAt(d, index.1, tableLength.0, numStrings.0, index.0)
  }

  // ---------------------------------------------------------------------
  // The values.

  /** A value word: the string whose bits start at its low 28 bits; the
      high nibble is not looked at. */
  function PlainWord(nodes: seq<int>, data: seq<byte>, word: uint32): Result<Str>
  {
    Decode(nodes, data, word % 0x1000_0000)
  }

  function PlainValues(nodes: seq<int>, data: seq<byte>, words: seq<uint32>): (r: Result<seq<Str>>)
    ensures r.Ok? ==> |r.value| == |words|
  {
    if words == [] then Ok([])
    else
      var init :- PlainValues(nodes, data, words[..|words| - 1]);
      var last :- PlainWord(nodes, data, words[|words| - 1]);
      Ok(init + [last])
  }

  function PlainFields(nodes: seq<int>, data: seq<byte>, fields: seq<WordField>): (r: Result<seq<CoalField>>)
    ensures r.Ok? ==> |r.value| == |fields|
  {
    if fields == [] then Ok([])
    else
      var init :- PlainFields(nodes, data, fields[..|fields| - 1]);
      var f := fields[|fields| - 1];
      var values :- PlainValues(nodes, data, f.words);
      Ok(init + [CoalField(f.name, values)])
  }

  function PlainSections(nodes: seq<int>, data: seq<byte>, sections: seq<WordSection>): (r: Result<seq<CoalSection>>)
    ensures r.Ok? ==> |r.value| == |sections|
  {
    if sections == [] then Ok([])
    else
      var init :- PlainSections(nodes, data, sections[..|sections| - 1]);
      var s := sections[|sections| - 1];
      var fields :- PlainFields(nodes, data, s.fields);
      Ok(init + [CoalSection(s.name, fields)])
  }

  /** ReadCompressedData's loop: every word of the tree replaced by its
      string. */
  function PlainFiles(nodes: seq<int>, data: seq<byte>, files: seq<WordFile>): (r: Result<seq<CoalFile>>)
    ensures r.Ok? ==> |r.value| == |files|
  {
    if files == [] then Ok([])
    else
      var init :- PlainFiles(nodes, data, files[..|files| - 1]);
      var f := files[|files| - 1];
      var sections :- PlainSections(nodes, data, f.sections);
      Ok(init + [CoalFile(f.fileName, sections)])
  }

  /** ReadCompressedData: the dropped uint and the compressed bits, then
      the tree's words decoded against them. */
  function PlainDataAt(nodes: seq<int>, tree: seq<WordFile>, d: seq<byte>, p: nat, length: uint32): Result<seq<CoalFile>>
  {
    var data :- ReadDataAt(d, p, length);
    PlainFiles(nodes, data.0, tree)
  }

  // ---------------------------------------------------------------------
  // Decode.

  /** What Decode reads after the header. */
  function PlainPartsAt(d: seq<byte>, p: nat, length: uint32): Result<seq<CoalFile>>
  {
    var names :- ReadListTableAt(d, p);
    var nodes :- ReadNodesAt(d, names.1);
    var tree :- ReadTreeAt(names.0, d, nodes.1);
    PlainDataAt(nodes.0, tree.0, d, tree.1, length)
  }

  /** Decode's reads: the header, then the parts. */
  function PlainLoadBytes(d: seq<byte>): Result<seq<CoalFile>>
  {
    var header :- ReadHeaderAt(d, 0);
    PlainPartsAt(d, header.1, header.0.compressedDataLength)
  }

  /** WriteIni's view of a field: one with no values is written as a single
      empty value. */
  function NormField(field: CoalField): CoalField
  {
    if field.values == [] then CoalField(field.name, [[]]) else field
  }

  function NormFields(fields: seq<CoalField>): (r: seq<CoalField>)
    ensures |r| == |fields|
  {
    if fields == [] then [] else NormFields(fields[..|fields| - 1]) + [NormField(fields[|fields| - 1])]
  }

  function NormSection(section: CoalSection): CoalSection
  {
    CoalSection(section.name, NormFields(section.fields))
  }

  function NormSections(sections: seq<CoalSection>): (r: seq<CoalSection>)
    ensures |r| == |sections|
  {
    if sections == [] then [] else NormSections(sections[..|sections| - 1]) + [NormSection(sections[|sections| - 1])]
  }

  /** A file with no sections is written as its lone header, with a null
      section name, which IniEncode writes as nothing. */
  function NormFile(file: CoalFile): CoalFile
  {
    if file.sections == [] then CoalFile(file.fileName, [CoalSection([], [])])
    else CoalFile(file.fileName, NormSections(file.sections))
  }

  /** The document as WriteIni writes it. */
  function Normalized(files: seq<CoalFile>): (r: seq<CoalFile>)
    ensures |r| == |files|
  {
    if files == [] then [] else Normalized(files[..|files| - 1]) + [NormFile(files[|files| - 1])]
  }

  /** `Decode`: the INI lines of an archive, under the first line, or the
      exception. */
  function DecodeLines(marker: Str, d: seq<byte>): Result<seq<Str>>
  {
    var files :- PlainLoadBytes(d);
    Ok([CoalescedME12LEConversion.FirstLine(marker, CoalescedME3LE)] + EventsText(Events(Normalized(files)), false))
  }

  // ---------------------------------------------------------------------
  // Encode.

  /** A header: a new file unless the last one has this name, then a new
      section unless the last section of that file has this name, even an
      empty one. */
  function OnSection(files: seq<CoalFile>, fileName: Str, sectionName: Str): (r: seq<CoalFile>)
    ensures r != [] && r[|r| - 1].fileName == fileName && r[|r| - 1].sections != []
    ensures LastSection(r).name == sectionName
  {
    var w := DocumentRoundTrip.Within(files, fileName);
    var f := w[|w| - 1];
    if f.sections == [] || f.sections[|f.sections| - 1].name != sectionName
    then AddSection(w, CoalSection(sectionName, []))
    else w
  }

  /** A field line: None (IniNoCurrentSectionException) when there is no
      section yet; else the value joins the last field of the last section
      when it has this name, or starts a new field. */
  function OnValue(files: seq<CoalFile>, name: Str, value: Str): (r: Option<seq<CoalFile>>)
    ensures r.Some? <==> files != [] && files[|files| - 1].sections != []
  {
    if files == [] || files[|files| - 1].sections == [] then None
    else Some(SetLastSection(files, DocumentRoundTrip.Put(LastSection(files), name, value)))
  }

  /** Encode's read loop from line next on. */
  function EncodeFrom(lines: seq<Str>, next: nat, files: seq<CoalFile>): Result<seq<CoalFile>>
    requires next <= |lines|
    decreases |lines| - next
  {
    if next == |lines| then Ok(files)
    else
      var read :- Ini.ReadFrom(lines, next, true, true);
      var result := read.0;
      if result.kind == Ini.Section then
        EncodeFrom(lines, read.1, OnSection(files, result.value1.value, result.value2.value))
      else if result.kind == Ini.Field then
        match OnValue(files, result.value1.value, result.value2.value)
        case None => Err(IniNoCurrentSection(result.lineNumber))
        case Some(files') => EncodeFrom(lines, read.1, files')
      else Ok(files)
  }

  /** `Encode`: the document the INI lines build, or the first exception. */
  function EncodeDoc(lines: seq<Str>): Result<seq<CoalFile>>
  {
    EncodeFrom(lines, 0, [])
  }

  // ---------------------------------------------------------------------
  // The string list: what it reads and in which order.

  /** A name stored as its UTF-8 byte count and its UTF-8 bytes reads back,
      for every string without surrogate halves whose UTF-8 form fits the
      count. */
  lemma Utf8NameRoundTrip(pre: seq<byte>, s: Str, rest: seq<byte>)
    requires Utf8.NoSurrogates(s) && |Utf8.Encode(s)| < 0x1_0000
    ensures var e := Utf8.Encode(s);
            Utf8NameAt(pre + UInt16Bytes(|e|) + e + rest, |pre|) == Ok(s)
  {
    var e := Utf8.Encode(s);
    var h := UInt16Bytes(|e|);
    var d := pre + h + e + rest;
    assert d[|pre|] == h[0] && d[|pre| + 1] == h[1];
    assert DecodeUInt16(h[0], h[1]) == |e|;
    assert d[|pre| + 2..|pre| + 2 + |e|] == e;
    Utf8.DecodeEncode(s);
  }

  /** The name loop, when it succeeds, has appended one checked name per
      entry from k on, in index order. */
  lemma {:induction false} ListNamesOk(check: IndexEntry -> Result<Str>, index: seq<IndexEntry>, k: nat, names: seq<Str>)
    requires k <= |index| && ListNames(check, index, k, names).Ok?
    ensures var ns := ListNames(check, index, k, names).value;
      |ns| == |names| + |index| - k && ns[..|names|] == names &&
      forall j :: k <= j < |index| ==> check(index[j]) == Ok(ns[|names| + j - k])
    decreases |index| - k
  {
    if k < |index| {
      var v := check(index[k]).value;
      var names' := names + [v];
      ListNamesOk(check, index, k + 1, names');
      var ns := ListNames(check, index, k + 1, names').value;
      assert ns[..|names|] == ns[..|names'|][..|names|];
      assert ns[|names|] == names'[|names|];
    }
  }

  /** Where every entry from k on names ns's string, the loop appends them
      all. */
  lemma {:induction false} ListNamesAll(check: IndexEntry -> Result<Str>, index: seq<IndexEntry>, k: nat, names: seq<Str>,
                                        ns: seq<Str>)
    requires k <= |index| == |ns|
    requires forall j :: k <= j < |index| ==> check(index[j]) == Ok(ns[j])
    ensures ListNames(check, index, k, names) == Ok(names + ns[k..])
    decreases |index| - k
  {
    if k < |index| {
      ListNamesAll(check, index, k + 1, names + [ns[k]], ns);
      assert names + [ns[k]] + ns[k + 1..] == names + ns[k..];
    } else {
      assert names + ns[k..] == names;
    }
  }

  /** The name list: the loop succeeds exactly when every entry names a
      string with its CRC, and the i-th entry gives the i-th name; no name is
      folded, merged or dropped. */
  lemma ListInIndexOrder(check: IndexEntry -> Result<Str>, index: seq<IndexEntry>, ns: seq<Str>)
    ensures ListNames(check, index, 0, []) == Ok(ns) <==>
      |ns| == |index| && forall j :: 0 <= j < |index| ==> check(index[j]) == Ok(ns[j])
  {
    if ListNames(check, index, 0, []) == Ok(ns) {
      ListNamesOk(check, index, 0, []);
      forall j | 0 <= j < |index| ensures check(index[j]) == Ok(ns[j]) {
        assert ns[j] == ns[|ns[..0]| + j - 0];
      }
    }
    if |ns| == |index| && forall j :: 0 <= j < |index| ==> check(index[j]) == Ok(ns[j]) {
      ListNamesAll(check, index, 0, [], ns);
      assert [] + ns[0..] == ns;
    }
  }

  // ---------------------------------------------------------------------
  // The values, against ME3Converter's.

  /** Where ME3Converter decodes a field's words, this converter decodes
      them to the same strings; and where this converter decodes them and
      every word is tagged as a string, so does ME3Converter. */
  lemma {:induction false} ValuesAgree(nodes: seq<int>, data: seq<byte>, words: seq<uint32>)
    ensures DecodeValues(nodes, data, words).Ok? ==> PlainValues(nodes, data, words) == DecodeValues(nodes, data, words)
    ensures PlainValues(nodes, data, words).Ok? && (forall i :: 0 <= i < |words| ==> words[i] / 0x1000_0000 == TypeString)
            ==> DecodeValues(nodes, data, words) == PlainValues(nodes, data, words)
    decreases |words|
  {
    if words != [] {
      var init := words[..|words| - 1];
      ValuesAgree(nodes, data, init);
      if forall i :: 0 <= i < |words| ==> words[i] / 0x1000_0000 == TypeString {
        assert forall i :: 0 <= i < |init| ==> init[i] == words[i];
      }
    }
  }

  lemma {:induction false} FieldsAgree(nodes: seq<int>, data: seq<byte>, fields: seq<WordField>)
    ensures DecodeFields(nodes, data, fields).Ok? ==> PlainFields(nodes, data, fields) == DecodeFields(nodes, data, fields)
    decreases |fields|
  {
    if fields != [] {
      FieldsAgree(nodes, data, fields[..|fields| - 1]);
      ValuesAgree(nodes, data, fields[|fields| - 1].words);
    }
  }

  lemma {:induction false} SectionsAgree(nodes: seq<int>, data: seq<byte>, sections: seq<WordSection>)
    ensures DecodeSections(nodes, data, sections).Ok? ==> PlainSections(nodes, data, sections) == DecodeSections(nodes, data, sections)
    decreases |sections|
  {
    if sections != [] {
      SectionsAgree(nodes, data, sections[..|sections| - 1]);
      FieldsAgree(nodes, data, sections[|sections| - 1].fields);
    }
  }

  /** A tree ME3Converter decodes, this converter decodes the same. */
  lemma {:induction false} FilesAgree(nodes: seq<int>, data: seq<byte>, files: seq<WordFile>)
    ensures DecodeFiles(nodes, data, files).Ok? ==> PlainFiles(nodes, data, files) == DecodeFiles(nodes, data, files)
    decreases |files|
  {
    if files != [] {
      FilesAgree(nodes, data, files[..|files| - 1]);
      SectionsAgree(nodes, data, files[|files| - 1].sections);
    }
  }

  // ---------------------------------------------------------------------
  // What WriteIni writes.

  predicate FieldsFilled(fields: seq<CoalField>)
  {
    forall k :: 0 <= k < |fields| ==> fields[k].values != []
  }

  predicate SectionsFilled(sections: seq<CoalSection>)
  {
    forall j :: 0 <= j < |sections| ==> FieldsFilled(sections[j].fields)
  }

  /** Every file has a section and every field a value. */
  predicate Filled(files: seq<CoalFile>)
  {
    forall i :: 0 <= i < |files| ==> files[i].sections != [] && SectionsFilled(files[i].sections)
  }

  lemma {:induction false} NormFieldsAt(fields: seq<CoalField>)
    ensures forall k :: 0 <= k < |fields| ==> NormFields(fields)[k] == NormField(fields[k])
    decreases |fields|
  {
    if fields != [] {
      NormFieldsAt(fields[..|fields| - 1]);
    }
  }

  lemma {:induction false} NormSectionsAt(sections: seq<CoalSection>)
    ensures forall j :: 0 <= j < |sections| ==> NormSections(sections)[j] == NormSection(sections[j])
    decreases |sections|
  {
    if sections != [] {
      NormSectionsAt(sections[..|sections| - 1]);
    }
  }

  lemma {:induction false} NormalizedAt(files: seq<CoalFile>)
    ensures forall i :: 0 <= i < |files| ==> Normalized(files)[i] == NormFile(files[i])
    decreases |files|
  {
    if files != [] {
      NormalizedAt(files[..|files| - 1]);
    }
  }

  /** A field's lines carry a value, and a field that has one is kept. */
  lemma NormFieldsSpec(fields: seq<CoalField>)
    ensures FieldsFilled(NormFields(fields))
    ensures forall k :: 0 <= k < |fields| ==> NormFields(fields)[k].name == fields[k].name
    ensures FieldsFilled(fields) ==> NormFields(fields) == fields
  {
    NormFieldsAt(fields);
  }

  lemma NormSectionsSpec(sections: seq<CoalSection>)
    ensures SectionsFilled(NormSections(sections))
    ensures forall j :: 0 <= j < |sections| ==> NormSections(sections)[j].name == sections[j].name
    ensures SectionsFilled(sections) ==> NormSections(sections) == sections
  {
    NormSectionsAt(sections);
    forall j | 0 <= j < |sections|
      ensures FieldsFilled(NormSections(sections)[j].fields)
      ensures FieldsFilled(sections[j].fields) ==> NormSections(sections)[j] == sections[j]
    {
      NormFieldsSpec(sections[j].fields);
    }
  }

  lemma NormFileSpec(file: CoalFile)
    ensures NormFile(file).fileName == file.fileName
    ensures NormFile(file).sections != [] && SectionsFilled(NormFile(file).sections)
    ensures file.sections != [] && SectionsFilled(file.sections) ==> NormFile(file) == file
  {
    if file.sections == [] {
      assert FieldsFilled([]);
    } else {
      NormSectionsSpec(file.sections);
    }
  }

  /** WriteIni writes every file with a section and every field with a
      value, and keeps the names; a document that has both already is
      written as it is. */
  lemma NormalizedSpec(files: seq<CoalFile>)
    ensures Filled(Normalized(files))
    ensures forall i :: 0 <= i < |files| ==> Normalized(files)[i].fileName == files[i].fileName
    ensures Filled(files) ==> Normalized(files) == files
  {
    NormalizedAt(files);
    forall i | 0 <= i < |files|
      ensures NormFile(files[i]).fileName == files[i].fileName
      ensures NormFile(files[i]).sections != [] && SectionsFilled(NormFile(files[i]).sections)
      ensures files[i].sections != [] && SectionsFilled(files[i].sections) ==> NormFile(files[i]) == files[i]
    {
      NormFileSpec(files[i]);
    }
  }

  // ---------------------------------------------------------------------
  // Encode reads back what Decode writes.

  /** Encode's builder driven by writer calls: None at a field with no
      section. */
  function Replay(events: seq<Event>, files: seq<CoalFile>): Option<seq<CoalFile>>
    decreases |events|
  {
    if events == [] then Some(files)
    else
      match events[0]
      case Header(fileName, sectionName) => Replay(events[1..], OnSection(files, fileName, sectionName))
      case Value(name, value) =>
        match OnValue(files, name, value)
        case None => None
        case Some(files') => Replay(events[1..], files')
  }

  lemma {:induction false} ReplayAppend(a: seq<Event>, b: seq<Event>, files: seq<CoalFile>)
    requires Replay(a, files).Some?
    ensures Replay(a + b, files) == Replay(b, Replay(a, files).value)
    decreases |a|
  {
    if a != [] {
      assert (a + b)[0] == a[0] && (a + b)[1..] == a[1..] + b;
      match a[0]
      case Header(fileName, sectionName) =>
        ReplayAppend(a[1..], b, OnSection(files, fileName, sectionName));
      case Value(name, value) =>
        ReplayAppend(a[1..], b, OnValue(files, name, value).value);
    } else {
      assert a + b == b;
    }
  }

  /** Field calls under a section rebuild it as the loader's field rule
      does, and touch nothing else. */
  lemma {:induction false} ReplayPut(before: seq<CoalFile>, fileName: Str, sections: seq<CoalSection>, s: CoalSection,
                                     events: seq<Event>)
    requires DocumentRoundTrip.AllValues(events)
    ensures Replay(events, DocumentRoundTrip.Build(before, fileName, sections, s))
            == Some(DocumentRoundTrip.Build(before, fileName, sections, DocumentRoundTrip.PutAll(s, events)))
    decreases |events|
  {
    if events != [] {
      assert events[0] in events;
      var s' := DocumentRoundTrip.Put(s, events[0].name, events[0].value);
      DocumentRoundTrip.SetLastOfBuild(before, fileName, sections, s, s');
      ReplayPut(before, fileName, sections, s', events[1..]);
    }
  }

  /** A section's calls add it, whole, to the file the header names. */
  lemma {:induction false} ReplaySection(files: seq<CoalFile>, fileName: Str, section: CoalSection)
    requires DocumentRoundTrip.FieldsLoadable(section.fields)
    requires files != [] && files[|files| - 1].fileName == fileName && files[|files| - 1].sections != [] ==>
      LastSection(files).name != section.name
    ensures Replay(SectionEvents(fileName, section), files)
            == Some(AddSection(DocumentRoundTrip.Within(files, fileName), section))
  {
    var events := SectionEvents(fileName, section);
    var fields := FieldsEvents(section.fields);
    assert events[0] == Header(fileName, section.name) && events[1..] == fields;
    var w := DocumentRoundTrip.Within(files, fileName);
    var f := w[|w| - 1];
    assert OnSection(files, fileName, section.name) == AddSection(w, CoalSection(section.name, []));
    DocumentRoundTrip.AddSectionIsBuild(w, CoalSection(section.name, []));
    DocumentRoundTrip.AddSectionIsBuild(w, section);
    DocumentRoundTrip.PutFields(section.name, section.fields);
    ReplayPut(w[..|w| - 1], fileName, f.sections, CoalSection(section.name, []), fields);
  }

  /** Sections the builder keeps apart: their fields are loadable and
      neighbours have different names; an empty name is allowed. */
  predicate SectionsKept(sections: seq<CoalSection>)
  {
    forall j :: 0 <= j < |sections| ==>
      DocumentRoundTrip.FieldsLoadable(sections[j].fields) && (j > 0 ==> sections[j - 1].name != sections[j].name)
  }

  /** A file's calls, after a file of another name, add it whole. */
  lemma {:induction false} ReplaySections(files: seq<CoalFile>, fileName: Str, sections: seq<CoalSection>)
    requires sections != [] && SectionsKept(sections)
    requires files != [] ==> files[|files| - 1].fileName != fileName
    ensures Replay(FileEvents(fileName, sections), files) == Some(files + [CoalFile(fileName, sections)])
    decreases |sections|
  {
    var init := sections[..|sections| - 1];
    var last := sections[|sections| - 1];
    assert init + [last] == sections;
    if init == [] {
      assert FileEvents(fileName, sections) == SectionEvents(fileName, last);
      ReplaySection(files, fileName, last);
    } else {
      assert SectionsKept(init) by {
        forall j | 0 <= j < |init| ensures init[j] == sections[j] {
        }
      }
      ReplaySections(files, fileName, init);
      ReplayNextSection(files, fileName, init, last);
    }
  }

  lemma ReplayNextSection(files: seq<CoalFile>, fileName: Str, init: seq<CoalSection>, last: CoalSection)
    requires init != [] && DocumentRoundTrip.FieldsLoadable(last.fields) && init[|init| - 1].name != last.name
    requires Replay(FileEvents(fileName, init), files) == Some(files + [CoalFile(fileName, init)])
    ensures Replay(FileEvents(fileName, init + [last]), files) == Some(files + [CoalFile(fileName, init + [last])])
  {
    var files1 := files + [CoalFile(fileName, init)];
    assert (init + [last])[..|init|] == init;
    ReplayAppend(FileEvents(fileName, init), SectionEvents(fileName, last), files);
    ReplaySection(files1, fileName, last);
    assert AddSection(files1, last) == files + [CoalFile(fileName, init + [last])] by {
      assert files1[..|files1| - 1] == files;
    }
  }

  /** A document Encode rebuilds from its lines: every file is named and has
      a section, its sections are kept apart, and neighbouring files have
      different names. */
  predicate Kept(files: seq<CoalFile>)
  {
    forall i :: 0 <= i < |files| ==>
      files[i].fileName != [] && files[i].sections != [] && SectionsKept(files[i].sections) &&
      (i > 0 ==> files[i - 1].fileName != files[i].fileName)
  }

  lemma KeptInit(files: seq<CoalFile>)
    requires files != [] && Kept(files)
    ensures Kept(files[..|files| - 1])
    ensures var init, last := files[..|files| - 1], files[|files| - 1];
      last.sections != [] && SectionsKept(last.sections) && (init != [] ==> init[|init| - 1].fileName != last.fileName)
  {
    var init := files[..|files| - 1];
    forall i | 0 <= i < |init| ensures init[i] == files[i] {
    }
  }

  /** The builder, run on the calls WriteIni makes, rebuilds a kept
      document. */
  lemma {:induction false} ReplayFiles(files: seq<CoalFile>)
    requires Kept(files)
    ensures Replay(Events(files), []) == Some(files)
    decreases |files|
  {
    if files != [] {
      KeptInit(files);
      ReplayFiles(files[..|files| - 1]);
      ReplayNextFile(files);
    }
  }

  lemma {:induction false} ReplayNextFile(files: seq<CoalFile>)
    requires files != []
    requires var init, last := files[..|files| - 1], files[|files| - 1];
      Replay(Events(init), []) == Some(init) && last.sections != [] && SectionsKept(last.sections) &&
      (init != [] ==> init[|init| - 1].fileName != last.fileName)
    ensures Replay(Events(files), []) == Some(files)
  {
    var init, last := files[..|files| - 1], files[|files| - 1];
    var more := FileEvents(last.fileName, last.sections);
    assert Events(files) == Events(init) + more;
    assert Replay(Events(init) + more, []) == Replay(more, init) by {
      ReplayAppend(Events(init), more, []);
    }
    assert Replay(more, init) == Some(files) by {
      ReplaySections(init, last.fileName, last.sections);
      DocumentRoundTrip.SnocSplit(files);
      assert last == CoalFile(last.fileName, last.sections);
    }
  }

  lemma {:induction false} SectionsKeptReadable(fileName: Str, sections: seq<CoalSection>)
    requires fileName != [] && SectionsKept(sections)
    ensures DocumentRoundTrip.Readable(FileEvents(fileName, sections))
    decreases |sections|
  {
    if sections != [] {
      var init := sections[..|sections| - 1];
      var last := sections[|sections| - 1];
      assert SectionsKept(init) by {
        forall j | 0 <= j < |init| ensures init[j] == sections[j] {
        }
      }
      SectionsKeptReadable(fileName, init);
      DocumentRoundTrip.FieldsReadable(last.fields);
      DocumentRoundTrip.ReadableAppend([Header(fileName, last.name)], FieldsEvents(last.fields));
      DocumentRoundTrip.ReadableAppend(FileEvents(fileName, init), SectionEvents(fileName, last));
    }
  }

  lemma {:induction false} KeptReadable(files: seq<CoalFile>)
    requires Kept(files)
    ensures DocumentRoundTrip.Readable(Events(files))
    decreases |files|
  {
    if files != [] {
      var init := files[..|files| - 1];
      var last := files[|files| - 1];
      KeptInit(files);
      KeptReadable(init);
      SectionsKeptReadable(last.fileName, last.sections);
      DocumentRoundTrip.ReadableAppend(Events(init), FileEvents(last.fileName, last.sections));
    }
  }

  /** Reading the lines IniWriter writes for readable calls drives the
      builder as the calls do. */
  lemma {:induction false} EncodeText(lines: seq<Str>, n: nat, events: seq<Event>, fieldsWritten: bool, files: seq<CoalFile>)
    requires n <= |lines| && lines[n..] == EventsText(events, fieldsWritten)
    requires DocumentRoundTrip.Readable(events) && Replay(events, files).Some?
    ensures EncodeFrom(lines, n, files) == Ok(Replay(events, files).value)
    decreases |events|
  {
    if events == [] {
      assert |lines[n..]| == 0;
    } else {
      var rest := events[1..];
      assert DocumentRoundTrip.Readable(rest) by {
        forall i | 0 <= i < |rest| ensures rest[i] == events[i + 1] {
        }
      }
      match events[0]
      case Header(fileName, sectionName) =>
        assert fileName != [];
        var after := DocumentRoundTrip.ReadHeader(lines, n, fileName, sectionName, fieldsWritten, EventsText(rest, false));
        EncodeText(lines, after, rest, false, OnSection(files, fileName, sectionName));
      case Value(name, value) =>
        assert Ini.PlainKey(name);
        DocumentRoundTrip.ReadField(lines, n, name, value, EventsText(rest, true));
        EncodeText(lines, n + 1, rest, true, OnValue(files, name, value).value);
    }
  }

  /** A skipped first line is passed over. */
  lemma SkipFirst(lines: seq<Str>, files: seq<CoalFile>)
    requires lines != [] && Ini.Skipped(lines[0])
    ensures EncodeFrom(lines, 0, files) == EncodeFrom(lines, 1, files)
  {
    assert Ini.ReadFrom(lines, 0, true, true) == Ini.ReadFrom(lines, 1, true, true);
  }

  /** Encode of the lines WriteIni writes gives back the document as it was
      written, for every document that is kept once written, whose first
      line (the marker's) the reader skips. */
  lemma TextRoundTrip(marker: Str, files: seq<CoalFile>)
    requires Ini.Skipped(CoalescedME12LEConversion.FirstLine(marker, CoalescedME3LE)) && Kept(Normalized(files))
    ensures EncodeDoc([CoalescedME12LEConversion.FirstLine(marker, CoalescedME3LE)] + EventsText(Events(Normalized(files)), false))
            == Ok(Normalized(files))
  {
    var doc := Normalized(files);
    var lines := [CoalescedME12LEConversion.FirstLine(marker, CoalescedME3LE)] + EventsText(Events(doc), false);
    ReplayFiles(doc);
    KeptReadable(doc);
    assert lines[1..] == EventsText(Events(doc), false);
    EncodeText(lines, 1, Events(doc), false, []);
    SkipFirst(lines, []);
  }

  /** Decode then Encode: the archive's document comes back as WriteIni
      wrote it, and unchanged when every file has a section and every field
      a value. */
  lemma DecodeEncode(marker: Str, d: seq<byte>)
    requires PlainLoadBytes(d).Ok? && Ini.Skipped(CoalescedME12LEConversion.FirstLine(marker, CoalescedME3LE))
    requires Kept(Normalized(PlainLoadBytes(d).value))
    ensures DecodeLines(marker, d).Ok?
    ensures EncodeDoc(DecodeLines(marker, d).value) == Ok(Normalized(PlainLoadBytes(d).value))
    ensures Filled(PlainLoadBytes(d).value) ==> EncodeDoc(DecodeLines(marker, d).value) == PlainLoadBytes(d)
  {
    TextRoundTrip(marker, PlainLoadBytes(d).value);
    NormalizedSpec(PlainLoadBytes(d).value);
  }

  /** Unlike CoalDocument.Load, an empty section name opens a section. */
  lemma EmptySectionOpened(fileName: Str)
    requires fileName != []
    ensures EncodeDoc([Ini.SectionLine(fileName, [])]) == Ok([CoalFile(fileName, [CoalSection([], [])])])
  {
    var events := [Header(fileName, [])];
    assert EventsText(events, false) == [Ini.SectionLine(fileName, [])];
    assert DocumentRoundTrip.Within([], fileName) == [CoalFile(fileName, [])];
    var r := AddSection([CoalFile(fileName, [])], CoalSection([], []));
    assert r[0] == CoalFile(fileName, [CoalSection([], [])]);
    assert r == [r[0]];
    assert OnSection([], fileName, []) == r;
    assert Replay(events, []) == Some(OnSection([], fileName, []));
    EncodeText([Ini.SectionLine(fileName, [])], 0, events, false, []);
  }

  /** A field line before any header is refused with its line number. */
  lemma FieldBeforeHeader(name: Str, value: Str)
    requires Ini.PlainKey(name)
    ensures EncodeDoc([Ini.FieldLine(name, value)]) == Err(IniNoCurrentSection(1))
  {
    DocumentRoundTrip.ReadField([Ini.FieldLine(name, value)], 0, name, value, []);
  }

  // ---------------------------------------------------------------------
  // ReadCompressedData's nested loops, one level per method; no tag is
  // checked.

  method PlainValueList(decomp: HuffmanDecompressor, data: seq<byte>, words: seq<uint32>) returns (r: Result<seq<Str>>)
    ensures r == PlainValues(decomp.nodes, data, words)
  {
    var values: seq<Str> := [];
    var v := 0;
    while v < |words|
      invariant 0 <= v <= |words| && PlainValues(decomp.nodes, data, words[..v]) == Ok(values)
    {
      assert words[..v + 1][..v] == words[..v];
      var str := decomp.Decompress(data, (words[v] % 0x1000_0000) as nat);
      if str.Err? {
        PlainValuesPrefix(decomp.nodes, data, words, v + 1);
        return Err(str.error);
      }
      values := values + [str.value];
      v := v + 1;
    }
    assert words[..v] == words;
    return Ok(values);
  }

  method PlainFieldList(decomp: HuffmanDecompressor, data: seq<byte>, fields: seq<WordField>) returns (r: Result<seq<CoalField>>)
    ensures r == PlainFields(decomp.nodes, data, fields)
  {
    var out: seq<CoalField> := [];
    var i := 0;
    while i < |fields|
      invariant 0 <= i <= |fields| && PlainFields(decomp.nodes, data, fields[..i]) == Ok(out)
    {
      assert fields[..i + 1][..i] == fields[..i];
      var values := PlainValueList(decomp, data, fields[i].words);
      if values.Err? {
        PlainFieldsPrefix(decomp.nodes, data, fields, i + 1);
        return Err(values.error);
      }
      out := out + [CoalField(fields[i].name, values.value)];
      i := i + 1;
    }
    assert fields[..i] == fields;
    return Ok(out);
  }

  method PlainSectionList(decomp: HuffmanDecompressor, data: seq<byte>, sections: seq<WordSection>)
    returns (r: Result<seq<CoalSection>>)
    ensures r == PlainSections(decomp.nodes, data, sections)
  {
    var out: seq<CoalSection> := [];
    var i := 0;
    while i < |sections|
      invariant 0 <= i <= |sections| && PlainSections(decomp.nodes, data, sections[..i]) == Ok(out)
    {
      assert sections[..i + 1][..i] == sections[..i];
      var fields := PlainFieldList(decomp, data, sections[i].fields);
      if fields.Err? {
        PlainSectionsPrefix(decomp.nodes, data, sections, i + 1);
        return Err(fields.error);
      }
      out := out + [CoalSection(sections[i].name, fields.value)];
      i := i + 1;
    }
    assert sections[..i] == sections;
    return Ok(out);
  }

  method PlainFileList(decomp: HuffmanDecompressor, data: seq<byte>, files: seq<WordFile>) returns (r: Result<seq<CoalFile>>)
    ensures r == PlainFiles(decomp.nodes, data, files)
  {
    var out: seq<CoalFile> := [];
    var i := 0;
    while i < |files|
      invariant 0 <= i <= |files| && PlainFiles(decomp.nodes, data, files[..i]) == Ok(out)
    {
      assert files[..i + 1][..i] == files[..i];
      var sections := PlainSectionList(decomp, data, files[i].sections);
      if sections.Err? {
        PlainFilesPrefix(decomp.nodes, data, files, i + 1);
        return Err(sections.error);
      }
      out := out + [CoalFile(files[i].fileName, sections.value)];
      i := i + 1;
    }
    assert files[..i] == files;
    return Ok(out);
  }

  /** The first word that fails decides the error of the whole list. */
  lemma {:induction false} PlainValuesPrefix(nodes: seq<int>, data: seq<byte>, words: seq<uint32>, i: nat)
    requires i <= |words| && PlainValues(nodes, data, words[..i]).Err?
    ensures PlainValues(nodes, data, words) == PlainValues(nodes, data, words[..i])
    decreases |words|
  {
    if i == |words| {
      assert words[..i] == words;
    } else {
      var init := words[..|words| - 1];
      assert init[..i] == words[..i];
      PlainValuesPrefix(nodes, data, init, i);
    }
  }

  lemma {:induction false} PlainFieldsPrefix(nodes: seq<int>, data: seq<byte>, fields: seq<WordField>, i: nat)
    requires i <= |fields| && PlainFields(nodes, data, fields[..i]).Err?
    ensures PlainFields(nodes, data, fields) == PlainFields(nodes, data, fields[..i])
    decreases |fields|
  {
    if i == |fields| {
      assert fields[..i] == fields;
    } else {
      var init := fields[..|fields| - 1];
      assert init[..i] == fields[..i];
      PlainFieldsPrefix(nodes, data, init, i);
    }
  }

  lemma {:induction false} PlainSectionsPrefix(nodes: seq<int>, data: seq<byte>, sections: seq<WordSection>, i: nat)
    requires i <= |sections| && PlainSections(nodes, data, sections[..i]).Err?
    ensures PlainSections(nodes, data, sections) == PlainSections(nodes, data, sections[..i])
    decreases |sections|
  {
    if i == |sections| {
      assert sections[..i] == sections;
    } else {
      var init := sections[..|sections| - 1];
      assert init[..i] == sections[..i];
      PlainSectionsPrefix(nodes, data, init, i);
    }
  }

  lemma {:induction false} PlainFilesPrefix(nodes: seq<int>, data: seq<byte>, files: seq<WordFile>, i: nat)
    requires i <= |files| && PlainFiles(nodes, data, files[..i]).Err?
    ensures PlainFiles(nodes, data, files) == PlainFiles(nodes, data, files[..i])
    decreases |files|
  {
    if i == |files| {
      assert files[..i] == files;
    } else {
      var init := files[..|files| - 1];
      assert init[..i] == files[..i];
      PlainFilesPrefix(nodes, data, init, i);
    }
  }

  // ---------------------------------------------------------------------
  // WriteIni's loops, one level per method.

  /** The lines of one more field of the loop. */
  lemma FieldListStep(start: seq<Str>, flag: bool, fields: seq<CoalField>, i: nat,
                      mid: seq<Str>, midFlag: bool, lines: seq<Str>, fieldsWritten: bool)
    requires i < |fields|
    requires CoalescedME12LEConversion.Appended(mid, midFlag, start, flag, FieldsEvents(NormFields(fields[..i])))
    requires CoalescedME12LEConversion.Appended(lines, fieldsWritten, mid, midFlag, FieldEvents(NormField(fields[i])))
    ensures CoalescedME12LEConversion.Appended(lines, fieldsWritten, start, flag, FieldsEvents(NormFields(fields[..i + 1])))
  {
    assert fields[..i + 1][..i] == fields[..i];
    var done := NormFields(fields[..i]);
    var all := done + [NormField(fields[i])];
    assert all[..|all| - 1] == done;
    CoalescedME12LEConversion.Chain(start, flag, FieldsEvents(done), mid, midFlag, FieldEvents(NormField(fields[i])),
                                    lines, fieldsWritten);
  }

  /** The lines of one more section of the loop. */
  lemma SectionListStep(start: seq<Str>, flag: bool, fileName: Str, sections: seq<CoalSection>, i: nat,
                        mid: seq<Str>, midFlag: bool, lines: seq<Str>, fieldsWritten: bool)
    requires i < |sections|
    requires CoalescedME12LEConversion.Appended(mid, midFlag, start, flag, FileEvents(fileName, NormSections(sections[..i])))
    requires CoalescedME12LEConversion.Appended(lines, fieldsWritten, mid, midFlag, SectionEvents(fileName, NormSection(sections[i])))
    ensures CoalescedME12LEConversion.Appended(lines, fieldsWritten, start, flag, FileEvents(fileName, NormSections(sections[..i + 1])))
  {
    assert sections[..i + 1][..i] == sections[..i];
    CoalescedME12LEConversion.SectionStep(start, flag, fileName, NormSections(sections[..i]), NormSection(sections[i]),
                                          mid, midFlag, lines, fieldsWritten);
  }

  /** The lines of one more file of the loop. */
  lemma FileListStep(start: seq<Str>, flag: bool, files: seq<CoalFile>, i: nat,
                     mid: seq<Str>, midFlag: bool, lines: seq<Str>, fieldsWritten: bool)
    requires i < |files|
    requires CoalescedME12LEConversion.Appended(mid, midFlag, start, flag, Events(Normalized(files[..i])))
    requires CoalescedME12LEConversion.Appended(lines, fieldsWritten, mid, midFlag,
                                                CoalescedME12LEConversion.FileEventsOf(NormFile(files[i])))
    ensures CoalescedME12LEConversion.Appended(lines, fieldsWritten, start, flag, Events(Normalized(files[..i + 1])))
  {
    assert files[..i + 1][..i] == files[..i];
    CoalescedME12LEConversion.FileStep(start, flag, Normalized(files[..i]), NormFile(files[i]), mid, midFlag,
                                       lines, fieldsWritten);
  }

  /** One field: `WriteField(name, "")` when it has no values, else
      `WriteField(name, values)`. */
  method WriteFieldEntry(ini: Ini.IniWriter, field: CoalField)
    modifies ini
    ensures CoalescedME12LEConversion.Appended(ini.lines, ini.fieldsWritten, old(ini.lines), old(ini.fieldsWritten),
                                               FieldEvents(NormField(field)))
  {
    if field.values == [] {
      ini.WriteField(field.name, []);
      assert Ini.FieldLines(field.name, [[]]) == [Ini.FieldLine(field.name, [])];
    } else {
      ini.WriteFields(field.name, field.values);
    }
    FieldEventsText(NormField(field), old(ini.fieldsWritten));
  }

  /** The field loop. */
  method WriteFieldList(ini: Ini.IniWriter, fields: seq<CoalField>)
    modifies ini
    ensures CoalescedME12LEConversion.Appended(ini.lines, ini.fieldsWritten, old(ini.lines), old(ini.fieldsWritten),
                                               FieldsEvents(NormFields(fields)))
  {
    ghost var start, flag := ini.lines, ini.fieldsWritten;
    CoalescedME12LEConversion.NothingAppended(start, flag);
    var i := 0;
    while i < |fields|
      invariant 0 <= i <= |fields|
      invariant CoalescedME12LEConversion.Appended(ini.lines, ini.fieldsWritten, start, flag, FieldsEvents(NormFields(fields[..i])))
    {
      ghost var mid, midFlag := ini.lines, ini.fieldsWritten;
      WriteFieldEntry(ini, fields[i]);
      FieldListStep(start, flag, fields, i, mid, midFlag, ini.lines, ini.fieldsWritten);
      i := i + 1;
    }
    assert fields[..i] == fields;
  }

  /** One section: its header, then its fields. */
  method WriteSectionEntry(ini: Ini.IniWriter, fileName: Str, section: CoalSection)
    modifies ini
    ensures CoalescedME12LEConversion.Appended(ini.lines, ini.fieldsWritten, old(ini.lines), old(ini.fieldsWritten),
                                               SectionEvents(fileName, NormSection(section)))
  {
    ini.WriteSection(fileName, section.name);
    ghost var header := ini.lines;
    WriteFieldList(ini, section.fields);
    CoalescedME12LEConversion.HeaderStep(old(ini.lines), old(ini.fieldsWritten), fileName, section.name,
                                         FieldsEvents(NormFields(section.fields)), header, ini.lines, ini.fieldsWritten);
  }

  /** The section loop of a file with sections. */
  method WriteSectionList(ini: Ini.IniWriter, fileName: Str, sections: seq<CoalSection>)
    modifies ini
    ensures CoalescedME12LEConversion.Appended(ini.lines, ini.fieldsWritten, old(ini.lines), old(ini.fieldsWritten),
                                               FileEvents(fileName, NormSections(sections)))
  {
    ghost var start, flag := ini.lines, ini.fieldsWritten;
    CoalescedME12LEConversion.NothingAppended(start, flag);
    var i := 0;
    while i < |sections|
      invariant 0 <= i <= |sections|
      invariant CoalescedME12LEConversion.Appended(ini.lines, ini.fieldsWritten, start, flag,
                                                   FileEvents(fileName, NormSections(sections[..i])))
    {
      ghost var mid, midFlag := ini.lines, ini.fieldsWritten;
      WriteSectionEntry(ini, fileName, sections[i]);
      SectionListStep(start, flag, fileName, sections, i, mid, midFlag, ini.lines, ini.fieldsWritten);
      i := i + 1;
    }
    assert sections[..i] == sections;
  }

  /** One file: `WriteSection(file.FileName, null)` alone when it has no
      sections, else its sections. */
  method WriteFileEntry(ini: Ini.IniWriter, file: CoalFile)
    modifies ini
    ensures CoalescedME12LEConversion.Appended(ini.lines, ini.fieldsWritten, old(ini.lines), old(ini.fieldsWritten),
                                               CoalescedME12LEConversion.FileEventsOf(NormFile(file)))
  {
    if file.sections == [] {
      ini.WriteSection(file.fileName, []);
      CoalescedME12LEConversion.EmptyFileStep(old(ini.lines), old(ini.fieldsWritten), file.fileName, ini.lines, ini.fieldsWritten);
    } else {
      WriteSectionList(ini, file.fileName, file.sections);
    }
  }

  /** The file loop. */
  method WriteFileList(ini: Ini.IniWriter, files: seq<CoalFile>)
    modifies ini
    ensures CoalescedME12LEConversion.Appended(ini.lines, ini.fieldsWritten, old(ini.lines), old(ini.fieldsWritten),
                                               Events(Normalized(files)))
  {
    ghost var start, flag := ini.lines, ini.fieldsWritten;
    CoalescedME12LEConversion.NothingAppended(start, flag);
    var i := 0;
    while i < |files|
      invariant 0 <= i <= |files|
      invariant CoalescedME12LEConversion.Appended(ini.lines, ini.fieldsWritten, start, flag, Events(Normalized(files[..i])))
    {
      ghost var mid, midFlag := ini.lines, ini.fieldsWritten;
      WriteFileEntry(ini, files[i]);
      FileListStep(start, flag, files, i, mid, midFlag, ini.lines, ini.fieldsWritten);
      i := i + 1;
    }
    assert files[..i] == files;
  }

  // ---------------------------------------------------------------------
  // The converter.

  class CoalescedConverterME3LE {
    /** `_bin`, the stream Decode reads. */
    var bin: CoalescedFileStream
    /** `_strings`, the names in the order of the index. */
    var strings: seq<Str>
    /** `_compressedDataLength`, from the header. */
    var compressedDataLength: uint32
    /** The table Crc32.Hash looks bytes up in. */
    const crcTable: array<bv32>

    ghost predicate Valid()
      reads this, bin
    {
      bin.Valid()
    }

    /** The CRC table is the one Crc32 generates. */
    ghost predicate HashReady()
      reads this, crcTable
    {
      crcTable.Length == 256 && forall i :: 0 <= i < 256 ==> crcTable[i] == TableEntry(i)
    }

    constructor ()
      ensures Valid() && HashReady() && fresh(bin) && strings == []
    {
      var table := GenerateTable();
      bin := new CoalescedFileStream([], CoalescedME3LE);
      strings := [];
      compressedDataLength := 0;
      crcTable := table;
    }

    /** `Decode`: the stream over the archive, its five parts in order, then
        the INI lines WriteIni writes under the detector's first line. */
    method Decode(contents: seq<byte>, marker: Str) returns (r: Result<seq<Str>>)
      requires HashReady()
      modifies this
      ensures Valid() && HashReady()
      ensures r == DecodeLines(marker, contents)
    {
      bin := new CoalescedFileStream(contents, CoalescedME3LE);
      var header :- ReadHeader();
      var files :- ReadParts();
      var lines := WriteIni(files, marker);
      return Ok(lines);
    }

    /** The signature and the version must match; the counts are read and
        only the compressed data length is kept. */
    method ReadHeader() returns (r: Result<()>)
      requires Valid()
      modifies bin, this`compressedDataLength
      ensures Valid() && bin.data == old(bin.data)
      ensures var spec := ReadHeaderAt(old(bin.data), old(bin.pos));
        (r.Ok? <==> spec.Ok?) && (r.Err? ==> r.error == spec.error)
        && (r.Ok? ==> compressedDataLength == spec.value.0.compressedDataLength && bin.pos == spec.value.1)
    {
      var sig :- bin.ReadInt();
      if sig != ME3Signature {
        return Err(CoalescedRead(BadSignature));
      }
      var version :- bin.ReadInt();
      if version != 1 {
        return Err(CoalescedRead(BadVersion(version)));
      }
      var num2 :- bin.ReadInt();
      var num3 :- bin.ReadInt();
      var stringSectionLength :- bin.ReadInt();
      var huffmanNodesSectionLength :- bin.ReadInt();
      var treeSectionLength :- bin.ReadInt();
      var length :- bin.ReadUInt();
      compressedDataLength := length;
      return Ok(());
    }

    /** Decode after the header: the string list, the nodes, the tree,
        then the compressed data the tree's words point into. */
    method ReadParts() returns (r: Result<seq<CoalFile>>)
      requires Valid() && HashReady()
      modifies bin, this`strings
      ensures Valid()
      ensures PlainPartsAt(old(bin.data), old(bin.pos), compressedDataLength) == r
    {
      ghost var d := bin.data;
      ghost var atTable := bin.pos;
      var table :- ReadStringTable();
      ghost var atNodes := bin.pos;
      assert ReadListTableAt(d, atTable) == Ok((strings, atNodes));
      var huffmanNodes :- ReadHuffmanNodes();
      ghost var atTree := bin.pos;
      var tree :- ReadTree();
      assert ReadTreeAt(strings, d, atTree) == Ok((tree, bin.pos));
      r := ReadCompressedData(huffmanNodes, tree);
    }

    /** The table length and the name count, the index into an array of
        `numStrings * 2` slots, the area, then the list of names. */
    method ReadStringTable() returns (r: Result<()>)
      requires Valid() && HashReady()
      modifies bin, this`strings
      ensures Valid() && bin.data == old(bin.data)
      ensures ReadListTableAt(old(bin.data), old(bin.pos)) == if r.Ok? then Ok((strings, bin.pos)) else Err(r.error)
    {
      var stringTableLength :- bin.ReadInt();
      var numStrings :- bin.ReadUInt();
      var stringIndex := new uint32[Bits32(2 * (numStrings as int))];
      ME3.EvenSize(numStrings as int);
      var read, entries := ReadIndex(numStrings, stringIndex);
      if read.Err? {
        return Err(read.error);
      }
      var names :- ReadListArea(stringTableLength, numStrings, stringIndex, entries);
      strings := names;
      return Ok(());
    }

    /** The area, sized from the table length less the index, then the
        list, whose capacity must be a non-negative int, and the name
        loop. */
    method ReadListArea(stringTableLength: int32, numStrings: uint32, stringIndex: array<uint32>, ghost entries: seq<IndexEntry>)
      returns (r: Result<seq<Str>>)
      requires Valid() && HashReady() && ME3.IndexHolds(stringIndex, entries) && |entries| == numStrings
      modifies bin
      ensures Valid() && bin.data == old(bin.data)
      ensures ReadListAreaAt(old(bin.data), old(bin.pos), stringTableLength, numStrings, entries)
           == if r.Ok? then Ok((r.value, bin.pos)) else Err(r.error)
    {
      var stringIndexLength := Bits32(8 * (numStrings as int));
      var stringBuf :- bin.ReadBytes(stringTableLength as int - stringIndexLength - 8);
      if numStrings >= 0x8000_0000 {
        return Err(ArgumentOutOfRange);
      }
      r := AddNames(stringBuf, stringIndex, entries, numStrings, stringIndexLength);
    }

    /** The index loop: `stringIndex[s++] = ReadUInt()` twice per name; the
        store past the array's end faults after the read. */
    method ReadIndex(numStrings: uint32, stringIndex: array<uint32>) returns (r: Result<()>, ghost entries: seq<IndexEntry>)
      requires Valid() && stringIndex.Length % 2 == 0
      modifies bin, stringIndex
      ensures Valid() && bin.data == old(bin.data)
      ensures r.Ok? ==> ME3.IndexHolds(stringIndex, entries)
      ensures ReadIndexAt(old(bin.data), old(bin.pos), numStrings, stringIndex.Length, [])
           == if r.Ok? then Ok((entries, bin.pos)) else Err(r.error)
    {
      ghost var d := bin.data;
      ghost var spec := ReadIndexAt(d, bin.pos, numStrings, stringIndex.Length, []);
      entries := [];
      var s: int := 0;
      var i: int := 0;
      while i < numStrings
        invariant bin.Valid() && bin.data == d && 0 <= i <= numStrings && |entries| == i && s == 2 * i
        invariant ME3.IndexHolds(stringIndex, entries)
        invariant ReadIndexAt(d, bin.pos, numStrings - i, stringIndex.Length, entries) == spec
      {
        var crc :- bin.ReadUInt();
        if s >= stringIndex.Length {
          return Err(IndexOutOfRange), entries;
        }
        stringIndex[s] := crc;
        var offset :- bin.ReadUInt();
        stringIndex[s + 1] := offset;
        entries := entries + [IndexEntry(crc, offset)];
        s := s + 2;
        i := i + 1;
      }
      return Ok(()), entries;
    }

    /** The name loop: each name read at its offset less the index size,
        checked against its CRC, then added to the list. */
    method AddNames(area: seq<byte>, stringIndex: array<uint32>, ghost entries: seq<IndexEntry>, numStrings: uint32,
                    stringIndexLength: uint32) returns (r: Result<seq<Str>>)
      requires HashReady() && ME3.IndexHolds(stringIndex, entries) && |entries| == numStrings
      ensures r == ListNames(NameCheck(area, stringIndexLength), entries, 0, [])
    {
      ghost var spec := ListNames(NameCheck(area, stringIndexLength), entries, 0, []);
      var names: seq<Str> := [];
      var i: int := 0;
      while i < numStrings
        invariant 0 <= i <= numStrings
        invariant ListNames(NameCheck(area, stringIndexLength), entries, i, names) == spec
      {
        var fileCrc := stringIndex[2 * i];
        var stringOffset := stringIndex[2 * i + 1];
        assert fileCrc == entries[i].crc && stringOffset == entries[i].offset;
        var str :- ReadChecked(area, fileCrc, stringOffset, stringIndexLength);
        names := names + [str];
        i := i + 1;
      }
      return Ok(names);
    }

    /** One pass of the name loop: the length, the UTF-8 bytes, then the
        CRC check. */
    method ReadChecked(area: seq<byte>, fileCrc: uint32, offset: uint32, stringIndexLength: uint32) returns (r: Result<Str>)
      requires HashReady()
      ensures r == CheckedUtf8Name(area, IndexEntry(fileCrc, offset), stringIndexLength)
    {
      var stringOffset := Bits32(offset as int - stringIndexLength);
      if stringOffset as int + 1 >= |area| {
        return Err(IndexOutOfRange);
      }
      var stringLen := DecodeUInt16(area[stringOffset], area[stringOffset + 1]);
      var start := stringOffset as int + 2;
      if start + stringLen > |area| {
        return Err(ArgumentOutOfRange);
      }
      var str := Utf8.Decode(area[start..start + stringLen]);
      var calcCrc := Hash(crcTable, str);
      if fileCrc != calcCrc as int {
        return Err(CoalescedRead(CrcMismatch(fileCrc, calcCrc as int)));
      }
      return Ok(str);
    }

    /** `ReadHuffmanNodes`: a ushort pair count, then `new int[count * 2]`
        filled with ints. */
    method ReadHuffmanNodes() returns (r: Result<seq<int32>>)
      requires Valid()
      modifies bin
      ensures Valid() && bin.data == old(bin.data)
      ensures ReadNodesAt(old(bin.data), old(bin.pos)) == if r.Ok? then Ok((r.value, bin.pos)) else Err(r.error)
    {
      ghost var d := bin.data;
      var numHuffmanNodes :- bin.ReadUShort();
      var huffmanNodes := new int32[2 * (numHuffmanNodes as int)];
      ghost var spec := ReadCounted(ReadInt32At, d, bin.pos, 2 * (numHuffmanNodes as int), []);
      var i := 0;
      while i < huffmanNodes.Length
        invariant bin.Valid() && bin.data == d && 0 <= i <= huffmanNodes.Length
        invariant ReadCounted(ReadInt32At, d, bin.pos, huffmanNodes.Length - i, huffmanNodes[..i]) == spec
      {
        var x :- bin.ReadInt();
        huffmanNodes[i] := x;
        assert huffmanNodes[..i + 1] == huffmanNodes[..i] + [x];
        i := i + 1;
      }
      assert huffmanNodes[..i] == huffmanNodes[..];
      return Ok(huffmanNodes[..]);
    }

    /** count heads of a level: each a name id looked up in the list
        (`_strings[id]`, ArgumentOutOfRangeException past its end) and an
        offset that is read and dropped. */
    method ReadHeads(count: uint16) returns (r: Result<seq<Str>>)
      requires Valid()
      modifies bin
      ensures Valid() && bin.data == old(bin.data)
      ensures ReadCounted(HeadReader(strings), old(bin.data), old(bin.pos), count, [])
           == if r.Ok? then Ok((r.value, bin.pos)) else Err(r.error)
    {
      ghost var d := bin.data;
      ghost var spec := ReadCounted(HeadReader(strings), d, bin.pos, count, []);
      var names: seq<Str> := [];
      var i := 0;
      while i < count
        invariant Valid() && bin.data == d && 0 <= i <= count && |names| == i
        invariant ReadCounted(HeadReader(strings), d, bin.pos, count - i, names) == spec
      {
        var id :- bin.ReadUShort();
        if id as int >= |strings| {
          return Err(ArgumentOutOfRange);
        }
        var name := strings[id];
        var offset :- bin.ReadUInt();
        names := names + [name];
        i := i + 1;
      }
      return Ok(names);
    }

    /** A field's values: the count, then a uint per value. */
    method ReadValueWords() returns (r: Result<seq<uint32>>)
      requires Valid()
      modifies bin
      ensures Valid() && bin.data == old(bin.data)
      ensures ReadWordsAt(old(bin.data), old(bin.pos)) == if r.Ok? then Ok((r.value, bin.pos)) else Err(r.error)
    {
      ghost var d := bin.data;
      var numValues :- bin.ReadUShort();
      ghost var spec := ReadCounted(ReadUInt32At, d, bin.pos, numValues, []);
      var words: seq<uint32> := [];
      var i := 0;
      while i < numValues
        invariant bin.Valid() && bin.data == d && 0 <= i <= numValues && |words| == i
        invariant ReadCounted(ReadUInt32At, d, bin.pos, numValues - i, words) == spec
      {
        var w :- bin.ReadUInt();
        words := words + [w];
        i := i + 1;
      }
      return Ok(words);
    }

    /** A section's fields: the count, the heads, then each field's
        values. */
    method ReadFields() returns (r: Result<seq<WordField>>)
      requires Valid()
      modifies bin
      ensures Valid() && bin.data == old(bin.data)
      ensures ReadFieldsAt(strings, old(bin.data), old(bin.pos)) == if r.Ok? then Ok((r.value, bin.pos)) else Err(r.error)
    {
      var numFields :- bin.ReadUShort();
      var names :- ReadHeads(numFields);
      var fields, bodies :- ReadFieldBodies(names, ReadWordsAt);
      return Ok(fields);
    }

    /** The second field loop: each named field's values. */
    method ReadFieldBodies(names: seq<Str>, ghost read: (seq<byte>, nat) -> Result<(seq<uint32>, nat)>)
      returns (r: Result<seq<WordField>>, ghost bodies: seq<seq<uint32>>)
      requires Valid() && ME3.ReadsWords(read)
      modifies bin
      ensures Valid() && bin.data == old(bin.data)
      ensures ReadCounted(read, old(bin.data), old(bin.pos), |names|, [])
           == if r.Ok? then Ok((bodies, bin.pos)) else Err(r.error)
      ensures r.Ok? ==> |bodies| == |names| && r.value == Zip(MakeField, names, bodies)
    {
      ghost var d := bin.data;
      ghost var spec := ReadCounted(read, d, bin.pos, |names|, []);
      bodies := [];
      var fields: seq<WordField> := [];
      var i := 0;
      while i < |names|
        invariant Valid() && bin.data == d && 0 <= i <= |names| && |bodies| == i
        invariant fields == Zip(MakeField, names[..i], bodies)
        invariant ReadCounted(read, d, bin.pos, |names| - i, bodies) == spec
      {
        var words :- ReadFieldBody(read, |names| - i, bodies);
        assert names[..i + 1][..i] == names[..i];
        fields := fields + [WordField(names[i], words)];
        bodies := bodies + [words];
        i := i + 1;
      }
      assert names[..i] == names;
      return Ok(fields), bodies;
    }

    method ReadFieldBody(ghost read: (seq<byte>, nat) -> Result<(seq<uint32>, nat)>, ghost n: int, ghost acc: seq<seq<uint32>>)
      returns (r: Result<seq<uint32>>)
      requires Valid() && ME3.ReadsWords(read) && n > 0
      modifies bin
      ensures Valid() && bin.data == old(bin.data)
      ensures r.Ok? ==> ReadCounted(read, bin.data, old(bin.pos), n, acc) == ReadCounted(read, bin.data, bin.pos, n - 1, acc + [r.value])
      ensures r.Err? ==> ReadCounted(read, bin.data, old(bin.pos), n, acc) == Err(r.error)
    {
      assert ME3.At(bin.data, bin.pos);
      ME3.CountedStep(read, bin.data, bin.pos, n, acc);
      r := ReadValueWords();
    }

    /** A file's sections: the count, the heads, then each section's
        fields. */
    method ReadSections() returns (r: Result<seq<WordSection>>)
      requires Valid()
      modifies bin
      ensures Valid() && bin.data == old(bin.data)
      ensures ReadSectionsAt(strings, old(bin.data), old(bin.pos)) == if r.Ok? then Ok((r.value, bin.pos)) else Err(r.error)
    {
      var numSections :- bin.ReadUShort();
      var names :- ReadHeads(numSections);
      var sections, bodies :- ReadSectionBodies(names, FieldsReader(strings));
      return Ok(sections);
    }

    /** The second section loop: each named section's fields. */
    method ReadSectionBodies(names: seq<Str>, ghost read: (seq<byte>, nat) -> Result<(seq<WordField>, nat)>)
      returns (r: Result<seq<WordSection>>, ghost bodies: seq<seq<WordField>>)
      requires Valid() && ME3.ReadsFields(read, strings)
      modifies bin
      ensures Valid() && bin.data == old(bin.data)
      ensures ReadCounted(read, old(bin.data), old(bin.pos), |names|, [])
           == if r.Ok? then Ok((bodies, bin.pos)) else Err(r.error)
      ensures r.Ok? ==> |bodies| == |names| && r.value == Zip(MakeSection, names, bodies)
    {
      ghost var d := bin.data;
      ghost var spec := ReadCounted(read, d, bin.pos, |names|, []);
      bodies := [];
      var sections: seq<WordSection> := [];
      var i := 0;
      while i < |names|
        invariant Valid() && bin.data == d && 0 <= i <= |names| && |bodies| == i
        invariant sections == Zip(MakeSection, names[..i], bodies)
        invariant ReadCounted(read, d, bin.pos, |names| - i, bodies) == spec
      {
        var fields :- ReadSectionBody(read, |names| - i, bodies);
        assert names[..i + 1][..i] == names[..i];
        sections := sections + [WordSection(names[i], fields)];
        bodies := bodies + [fields];
        i := i + 1;
      }
      assert names[..i] == names;
      return Ok(sections), bodies;
    }

    method ReadSectionBody(ghost read: (seq<byte>, nat) -> Result<(seq<WordField>, nat)>, ghost n: int,
                           ghost acc: seq<seq<WordField>>) returns (r: Result<seq<WordField>>)
      requires Valid() && ME3.ReadsFields(read, strings) && n > 0
      modifies bin
      ensures Valid() && bin.data == old(bin.data)
      ensures r.Ok? ==> ReadCounted(read, bin.data, old(bin.pos), n, acc) == ReadCounted(read, bin.data, bin.pos, n - 1, acc + [r.value])
      ensures r.Err? ==> ReadCounted(read, bin.data, old(bin.pos), n, acc) == Err(r.error)
    {
      assert ME3.At(bin.data, bin.pos);
      ME3.CountedStep(read, bin.data, bin.pos, n, acc);
      r := ReadFields();
    }

    /** `ReadTree`: the file count, the heads, then each file's sections;
        the values stay words until the compressed data is read. */
    method ReadTree() returns (r: Result<seq<WordFile>>)
      requires Valid()
      modifies bin
      ensures Valid() && bin.data == old(bin.data)
      ensures ReadTreeAt(strings, old(bin.data), old(bin.pos)) == if r.Ok? then Ok((r.value, bin.pos)) else Err(r.error)
    {
      var numFiles :- bin.ReadUShort();
      var names :- ReadHeads(numFiles);
      var files, bodies :- ReadFileBodies(names, SectionsReader(strings));
      return Ok(files);
    }

    method ReadFileBody(ghost read: (seq<byte>, nat) -> Result<(seq<WordSection>, nat)>, ghost n: int,
                        ghost acc: seq<seq<WordSection>>) returns (r: Result<seq<WordSection>>)
      requires Valid() && ME3.ReadsSections(read, strings) && n > 0
      modifies bin
      ensures Valid() && bin.data == old(bin.data)
      ensures r.Ok? ==> ReadCounted(read, bin.data, old(bin.pos), n, acc) == ReadCounted(read, bin.data, bin.pos, n - 1, acc + [r.value])
      ensures r.Err? ==> ReadCounted(read, bin.data, old(bin.pos), n, acc) == Err(r.error)
    {
      assert ME3.At(bin.data, bin.pos);
      ME3.CountedStep(read, bin.data, bin.pos, n, acc);
      r := ReadSections();
    }

    /** The second file loop: each named file's sections. */
    method ReadFileBodies(names: seq<Str>, ghost read: (seq<byte>, nat) -> Result<(seq<WordSection>, nat)>)
      returns (r: Result<seq<WordFile>>, ghost bodies: seq<seq<WordSection>>)
      requires Valid() && ME3.ReadsSections(read, strings)
      modifies bin
      ensures Valid() && bin.data == old(bin.data)
      ensures ReadCounted(read, old(bin.data), old(bin.pos), |names|, [])
           == if r.Ok? then Ok((bodies, bin.pos)) else Err(r.error)
      ensures r.Ok? ==> |bodies| == |names| && r.value == Zip(MakeFile, names, bodies)
    {
      ghost var d := bin.data;
      ghost var spec := ReadCounted(read, d, bin.pos, |names|, []);
      bodies := [];
      var files: seq<WordFile> := [];
      var i := 0;
      while i < |names|
        invariant Valid() && bin.data == d && 0 <= i <= |names| && |bodies| == i
        invariant files == Zip(MakeFile, names[..i], bodies)
        invariant ReadCounted(read, d, bin.pos, |names| - i, bodies) == spec
      {
        var sections :- ReadFileBody(read, |names| - i, bodies);
        assert names[..i + 1][..i] == names[..i];
        files := files + [WordFile(names[i], sections)];
        bodies := bodies + [sections];
        i := i + 1;
      }
      assert names[..i] == names;
      return Ok(files), bodies;
    }

    /** A dropped uint, the compressed bits, then every value word of the
        tree replaced by the string at its low 28 bits. */
    method ReadCompressedData(huffmanNodes: seq<int32>, tree: seq<WordFile>) returns (r: Result<seq<CoalFile>>)
      requires Valid()
      modifies bin
      ensures Valid() && bin.data == old(bin.data)
      ensures PlainDataAt(huffmanNodes, tree, old(bin.data), old(bin.pos), compressedDataLength) == r
    {
      var unk :- bin.ReadUInt();
      var compressedData :- bin.ReadBytes(Wrap32(compressedDataLength));
      var decomp := new HuffmanDecompressor(huffmanNodes);
      r := PlainFileList(decomp, compressedData, tree);
    }

    /** `WriteIni`: the detector's first line, then every file, section and
        field of the document, with WriteIni's stand-ins for the empty
        ones. */
    method WriteIni(files: seq<CoalFile>, marker: Str) returns (lines: seq<Str>)
      ensures lines == [CoalescedME12LEConversion.FirstLine(marker, CoalescedME3LE)] + EventsText(Events(Normalized(files)), false)
    {
      var ini := new Ini.IniWriter(marker, CoalescedME3LE);
      WriteFileList(ini, files);
      return ini.lines;
    }

    /** `Encode`: the read loop builds the document; headers open files
        and sections, fields go into the current section, and the reader's
        end stops it. */
    method Encode(lines: seq<Str>) returns (r: Result<seq<CoalFile>>)
      ensures r == EncodeDoc(lines)
    {
      ghost var spec := EncodeDoc(lines);
      var ini := new Ini.IniReader(lines, true, true);
      var doc: seq<CoalFile> := [];
      while !ini.AtEnd()
        invariant ini.Valid() && ini.lines == lines && ini.hasEmbeddedFileNames && ini.unescapeStrings
        invariant EncodeFrom(lines, ini.lineNumber, doc) == spec
        decreases |lines| - ini.lineNumber
      {
        var read :- ini.Read();
        if read.kind == Ini.Section {
          doc := OnSection(doc, read.value1.value, read.value2.value);
        } else if read.kind == Ini.Field {
          var next := OnValue(doc, read.value1.value, read.value2.value);
          if next.None? {
            return Err(IniNoCurrentSection(read.lineNumber));
          }
          doc := next.value;
        } else {
          break;
        }
      }
      return Ok(doc);
    }
  }
}
