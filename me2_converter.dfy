/** ME2Converter: the Mass Effect 2 archive. A signature int, then per file
    its name and its content, both in the ME2 string layout; the content is
    INI text, a "[name]" header per section and a "name=value" line per
    value, each line ended by "\n". */
module ME2 {
  import opened Wrappers
  import opened Primitives
  import opened Formats
  import opened ByteCodec
  import opened StringCodec
  import opened CoalStream
  import opened Ini
  import opened Document

  // ---------------------------------------------------------------------
  // The text and the bytes Save writes.

  /** The line the content writer writes for a section: its name in
      brackets, unescaped. */
  function HeaderLine(name: Str): Str
  {
    [OpenBracket] + name + [CloseBracket]
  }

  /** The line the content writer writes for a value: name, '=', value,
      unescaped. */
  function PairLine(name: Str, value: Str): Str
  {
    name + [EqualsSign] + value
  }

  function ValueLines(name: Str, values: seq<Str>): (r: seq<Str>)
    ensures |r| == |values|
  {
    if values == [] then []
    else ValueLines(name, values[..|values| - 1]) + [PairLine(name, values[|values| - 1])]
  }

  function FieldsLines(fields: seq<CoalField>): seq<Str>
  {
    if fields == [] then []
    else FieldsLines(fields[..|fields| - 1]) + ValueLines(fields[|fields| - 1].name, fields[|fields| - 1].values)
  }

  /** A section's header, then a line per value of each field; no blank
      line between sections. */
  function SectionLines(section: CoalSection): seq<Str>
  {
    [HeaderLine(section.name)] + FieldsLines(section.fields)
  }

  function SectionsLines(sections: seq<CoalSection>): seq<Str>
  {
    if sections == [] then []
    else SectionsLines(sections[..|sections| - 1]) + SectionLines(sections[|sections| - 1])
  }

  /** The content text of a file: its lines, each ended by "\n". */
  function ContentText(sections: seq<CoalSection>): Str
  {
    JoinLines(SectionsLines(sections))
  }

  /** The content as WriteBytes stores it: prefix length + 1, the bytes,
      a NUL. */
  function Framed(bytes: seq<byte>): seq<byte>
  {
    Int32Bytes(|bytes| + 1) + bytes + [0]
  }

  function FileBytes(file: CoalFile): seq<byte>
  {
    EncodeME2(file.fileName) + Framed(LowBytes(ContentText(file.sections)))
  }

  function FilesBytes(files: seq<CoalFile>): seq<byte>
  {
    if files == [] then []
    else FilesBytes(files[..|files| - 1]) + FileBytes(files[|files| - 1])
  }

  /** The archive Save writes: the signature, then every file. */
  function SaveBytes(signature: int32, files: seq<CoalFile>): seq<byte>
  {
    Int32Bytes(signature) + FilesBytes(files)
  }

  // ---------------------------------------------------------------------
  // What Load reads.

  /** `section.Fields.Add(new CoalField(name, value))` on the last section. */
  function AddValue(sections: seq<CoalSection>, name: Str, value: Str): (r: seq<CoalSection>)
    requires sections != []
    ensures |r| == |sections| && r[..|r| - 1] == sections[..|sections| - 1]
    ensures var s := sections[|sections| - 1];
      r[|r| - 1] == CoalSection(s.name, s.fields + [CoalField(name, [value])])
  {
    var s := sections[|sections| - 1];
    sections[..|sections| - 1] + [CoalSection(s.name, s.fields + [CoalField(name, [value])])]
  }

  /** The reader loop over a file's content, from line next with the
      sections built so far: a header opens a section named by its whole
      bracketed text, a field needs a section to go into. */
  function ParseContent(lines: seq<Str>, next: nat, sections: seq<CoalSection>): Result<seq<CoalSection>>
    requires next <= |lines|
    decreases |lines| - next
  {
    match ReadFrom(lines, next, false, false)
    case Err(e) => Err(e)
    case Ok((read, after)) =>
      if read.kind == IniReadResultType.EndOfStream then Ok(sections)
      else if read.kind == Section then ParseContent(lines, after, sections + [CoalSection(read.value1.value, [])])
      else if sections == [] then Err(IniNoCurrentSection(read.lineNumber))
      else ParseContent(lines, after, AddValue(sections, read.value1.value, read.value2.value))
  }

  /** The sections of a content text. */
  function ReadContent(text: Str): Result<seq<CoalSection>>
  {
    ParseContent(Lines(text), 0, [])
  }

  /** The file loop: until the end of the stream, a name, a content, and
      the content's sections. */
  function ReadFiles(d: seq<byte>, p: nat, files: seq<CoalFile>): Result<seq<CoalFile>>
    decreases |d| - p
  {
    if p >= |d| then Ok(files)
    else
      var name :- ReadME2At(d, p);
      var content :- ReadME2At(d, name.1);
      var sections :- ReadContent(content.0);
      ReadFiles(d, content.1, files + [CoalFile(name.0, sections)])
  }

  /** The files Load builds from an archive, or the exception it raises; the
      signature is read and not checked. */
  function LoadBytes(d: seq<byte>): Result<seq<CoalFile>>
  {
    var signature :- ReadInt32At(d, 0);
    ReadFiles(d, signature.1, [])
  }

  // ---------------------------------------------------------------------
  // Load.

  ghost predicate Reading(bin: CoalFileStream)
    reads bin
  {
    bin.Valid() && bin.format == MassEffect2
  }

  /** The reader loop over one file's content. */
  method LoadContent(fileContent: Str) returns (r: Result<seq<CoalSection>>)
    ensures r == ReadContent(fileContent)
  {
    ghost var lines := Lines(fileContent);
    var ini := new IniReader(Lines(fileContent), false, false);
    var sections: seq<CoalSection> := [];
    var hasSection := false;
    while !ini.AtEnd()
      invariant ini.Valid() && ini.lines == lines
      invariant !ini.hasEmbeddedFileNames && !ini.unescapeStrings
      invariant hasSection <==> sections != []
      invariant ParseContent(lines, ini.lineNumber, sections) == ReadContent(fileContent)
      decreases |lines| - ini.lineNumber
    {
      var read :- ini.Read();
      if read.kind == IniReadResultType.EndOfStream {
        break;
      }
      if read.kind == Section {
        sections := sections + [CoalSection(read.value1.value, [])];
        hasSection := true;
      } else if read.kind == Field {
        if !hasSection {
          return Err(IniNoCurrentSection(read.lineNumber));
        }
        sections := AddValue(sections, read.value1.value, read.value2.value);
      }
    }
    return Ok(sections);
  }

  /** `Load`: the document an archive holds. The stream becomes the
      archive's bytes, read from the start. */
  method Load(contents: seq<byte>) returns (r: Result<CoalDocument>)
    ensures r.Ok? ==> fresh(r.value) && r.value.format == MassEffect2
    ensures LoadBytes(contents) == if r.Ok? then Ok(r.value.files) else Err(r.error)
  {
    var doc := new CoalDocument(MassEffect2);
    var bin := new CoalFileStream(contents, MassEffect2);
    var signature :- bin.ReadInt();
    var files: seq<CoalFile> := [];
    while !bin.AtEnd()
      invariant Reading(bin) && bin.data == contents
      invariant ReadFiles(contents, bin.pos, files) == LoadBytes(contents)
      decreases |contents| - bin.pos
    {
      var fileName :- bin.ReadString();
      var fileContent :- bin.ReadString();
      var sections :- LoadContent(fileContent);
      files := files + [CoalFile(fileName, sections)];
    }
    doc.files := files;
    return Ok(doc);
  }

  // ---------------------------------------------------------------------
  // Save.

  /** The INI writer Save opens over a memory stream: no first line, "\n"
      line ends, no blank line between sections, no escaping. That writer
      overload is not part of this model; its lines are what these
      arguments ask for. */
  class ContentWriter {
    var lines: seq<Str>

    constructor ()
      ensures lines == []
    {
      lines := [];
    }

    method WriteSection(name: Str)
      modifies this
      ensures lines == old(lines) + [HeaderLine(name)]
    {
      lines := lines + [HeaderLine(name)];
    }

    method WriteField(name: Str, value: Str)
      modifies this
      ensures lines == old(lines) + [PairLine(name, value)]
    {
      lines := lines + [PairLine(name, value)];
    }
  }

  /** The value loop of one field. */
  method WriteValues(ini: ContentWriter, field: CoalField)
    modifies ini
    ensures ini.lines == old(ini.lines) + ValueLines(field.name, field.values)
  {
    ghost var start := ini.lines;
    var values := field.values;
    var i := 0;
    while i < |values|
      invariant 0 <= i <= |values|
      invariant ini.lines == start + ValueLines(field.name, values[..i])
    {
      assert values[..i + 1][..i] == values[..i];
      ini.WriteField(field.name, values[i]);
      i := i + 1;
    }
    assert values[..i] == values;
  }

  /** One section: its header, then the field loop. */
  method WriteSectionLines(ini: ContentWriter, section: CoalSection)
    modifies ini
    ensures ini.lines == old(ini.lines) + SectionLines(section)
  {
    ini.WriteSection(section.name);
    ghost var start := ini.lines;
    var fields := section.fields;
    var i := 0;
    while i < |fields|
      invariant 0 <= i <= |fields|
      invariant ini.lines == start + FieldsLines(fields[..i])
    {
      ghost var done := FieldsLines(fields[..i]);
      WriteValues(ini, fields[i]);
      assert fields[..i + 1][..i] == fields[..i];
      Append3(start, done, ValueLines(fields[i].name, fields[i].values));
      i := i + 1;
    }
    assert fields[..i] == fields;
    Append3(old(ini.lines), [HeaderLine(section.name)], FieldsLines(fields));
  }

  /** The section loop of one file. */
  method WriteContent(ini: ContentWriter, sections: seq<CoalSection>)
    modifies ini
    ensures ini.lines == old(ini.lines) + SectionsLines(sections)
  {
    ghost var start := ini.lines;
    var i := 0;
    while i < |sections|
      invariant 0 <= i <= |sections|
      invariant ini.lines == start + SectionsLines(sections[..i])
    {
      ghost var done := SectionsLines(sections[..i]);
      WriteSectionLines(ini, sections[i]);
      assert sections[..i + 1][..i] == sections[..i];
      Append3(start, done, SectionLines(sections[i]));
      i := i + 1;
    }
    assert sections[..i] == sections;
  }

  lemma Append3<T>(x: seq<T>, a: seq<T>, b: seq<T>)
    ensures x + a + b == x + (a + b)
  {
  }

  /** A stream being written from empty: the cursor stays at the end. */
  ghost predicate Writing(bin: CoalFileStream)
    reads bin
  {
    bin.Valid() && bin.format == MassEffect2 && bin.pos == |bin.data|
  }

  /** The bytes of the memory stream the content writer fills. */
  method WriteContentBytes(sections: seq<CoalSection>) returns (bytes: seq<byte>)
    ensures bytes == LowBytes(ContentText(sections))
  {
    var ini := new ContentWriter();
    WriteContent(ini, sections);
    assert ini.lines == SectionsLines(sections);
    bytes := LowBytes(JoinLines(ini.lines));
  }

  /** `WriteInt(bytes.Length + 1)`, `WriteBytes(bytes)`, `WriteByte(0)`. */
  method PutFramed(bin: CoalFileStream, bytes: seq<byte>)
    requires Writing(bin)
    modifies bin
    ensures Writing(bin) && bin.data == old(bin.data) + Framed(bytes)
  {
    ghost var h := bin.data;
    bin.WriteInt(Wrap32(|bytes| + 1));
    Int32BytesWrap(|bytes| + 1);
    SpliceAtEnd(h, Int32Bytes(|bytes| + 1));
    ghost var h1 := bin.data;
    bin.WriteBytes(bytes);
    SpliceAtEnd(h1, bytes);
    ghost var h2 := bin.data;
    bin.WriteByte(0);
    SpliceAtEnd(h2, [0]);
  }

  /** One file: its name, then its content text framed as a string of
      bytes.Length + 1 bytes ending in NUL. */
  method SaveFile(bin: CoalFileStream, file: CoalFile)
    requires Writing(bin)
    modifies bin
    ensures Writing(bin) && bin.data == old(bin.data) + FileBytes(file)
  {
    ghost var d := bin.data;
    var done := bin.WriteString(file.fileName);
    SpliceAtEnd(d, EncodeME2(file.fileName));
    var bytes := WriteContentBytes(file.sections);
    PutFramed(bin, bytes);
    Append3(d, EncodeME2(file.fileName), Framed(bytes));
  }

  /** `Save`: the archive of a document under the given signature (the ME2
      signature constant is not part of this model). The stream becomes the
      bytes returned, written from empty. */
  method Save(doc: CoalDocument, signature: int32) returns (bytes: seq<byte>)
    ensures bytes == SaveBytes(signature, doc.files)
  {
    var bin := new CoalFileStream([], MassEffect2);
    bin.WriteInt(signature);
    SpliceAtEnd([], Int32Bytes(signature));
    assert [] + Int32Bytes(signature) == Int32Bytes(signature);
    ghost var h := bin.data;
    var files := doc.files;
    var i := 0;
    while i < |files|
      invariant 0 <= i <= |files|
      invariant Writing(bin) && bin.data == h + FilesBytes(files[..i])
    {
      ghost var done := FilesBytes(files[..i]);
      SaveFile(bin, files[i]);
      assert files[..i + 1][..i] == files[..i];
      Append3(h, done, FileBytes(files[i]));
      i := i + 1;
    }
    assert files[..i] == files;
    bytes := bin.data;
  }
}
