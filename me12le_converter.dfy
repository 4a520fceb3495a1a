/** ME12LEConverter: the ME1/2 LE archive. A file count, then per file its
    name and section count, per section its name and value count, then one
    (field name, value) string pair per value; every string is in the
    ME1/2 LE layout. */
module ME12LE {
  import opened Wrappers
  import opened Primitives
  import opened Formats
  import opened ByteCodec
  import opened StringCodec
  import opened CoalStream
  import opened Document

  /** How a stream lays out a string and an int: what ReadString and
      ReadInt read, the bytes WriteString and WriteInt emit, and which
      strings the layout keeps. */
  datatype Layout = Layout(readString: (seq<byte>, nat) -> Result<(Str, nat)>, writeString: Str -> seq<byte>,
                           readInt: (seq<byte>, nat) -> Result<(int32, nat)>, writeInt: int -> seq<byte>,
                           keeps: Str -> bool)

  /** A string the ME1/2 LE layout keeps: no NUL (the reader stops at
      one), and short enough for its negated, incremented length to be an
      int. */
  predicate Storable(s: Str)
  {
    NoNul(s) && |s| < 0x7FFF_FFFF
  }

  /** The layout of the ME1/2 LE stream Load and Save open. */
  const ME12: Layout := Layout(ReadME12At, EncodeME12, ReadInt32At, Int32Bytes, Storable)

  // ---------------------------------------------------------------------
  // The bytes Save writes.

  /** A field's pairs: its name again before each of its values. */
  function ValuesBytes(L: Layout, name: Str, values: seq<Str>): seq<byte>
  {
    if values == [] then []
    else ValuesBytes(L, name, values[..|values| - 1]) + (L.writeString(name) + L.writeString(values[|values| - 1]))
  }

  /** A section's pairs, field after field. */
  function FieldsBytes(L: Layout, fields: seq<CoalField>): seq<byte>
  {
    if fields == [] then []
    else FieldsBytes(L, fields[..|fields| - 1]) + ValuesBytes(L, fields[|fields| - 1].name, fields[|fields| - 1].values)
  }

  /** A section: its name, its ValueCount, then its pairs. */
  function SectionBytes(L: Layout, section: CoalSection): seq<byte>
  {
    L.writeString(section.name) + L.writeInt(section.ValueCount()) + FieldsBytes(L, section.fields)
  }

  function SectionsBytes(L: Layout, sections: seq<CoalSection>): seq<byte>
  {
    if sections == [] then []
    else SectionsBytes(L, sections[..|sections| - 1]) + SectionBytes(L, sections[|sections| - 1])
  }

  /** A file: its name, its section count, then its sections. */
  function FileBytes(L: Layout, file: CoalFile): seq<byte>
  {
    L.writeString(file.fileName) + L.writeInt(|file.sections|) + SectionsBytes(L, file.sections)
  }

  function FilesBytes(L: Layout, files: seq<CoalFile>): seq<byte>
  {
    if files == [] then []
    else FilesBytes(L, files[..|files| - 1]) + FileBytes(L, files[|files| - 1])
  }

  /** The whole archive: the file count, then the files. */
  function SaveBytes(L: Layout, files: seq<CoalFile>): seq<byte>
  {
    L.writeInt(|files|) + FilesBytes(L, files)
  }

  /** Every count Save writes fits the int WriteInt takes: a .NET list
      never holds more, and a larger ValueCount overflows its Sum. */
  predicate CountsFit(files: seq<CoalFile>)
  {
    |files| < 0x8000_0000 &&
    forall file :: file in files ==> SectionsFit(file.sections)
  }

  predicate SectionsFit(sections: seq<CoalSection>)
  {
    |sections| < 0x8000_0000 &&
    forall section :: section in sections ==> section.ValueCount() < 0x8000_0000
  }

  // ---------------------------------------------------------------------
  // What Load reads, with the cursor threaded through. Each reader
  // collects into acc, as the loops append to their lists.

  /** One pair: a new field holding one value. */
  function ReadPair(L: Layout, d: seq<byte>, p: nat): Result<(CoalField, nat)>
  {
    var name :- L.readString(d, p);
    var value :- L.readString(d, name.1);
    Ok((CoalField(name.0, [value.0]), value.1))
  }

  /** n pairs. */
  function ReadPairs(L: Layout, d: seq<byte>, p: nat, n: int, acc: seq<CoalField>): Result<(seq<CoalField>, nat)>
    decreases if n > 0 then n else 0
  {
    if n <= 0 then Ok((acc, p))
    else
      var field :- ReadPair(L, d, p);
      ReadPairs(L, d, field.1, n - 1, acc + [field.0])
  }

  /** One section: a name, a pair count and the pairs. */
  function ReadSection(L: Layout, d: seq<byte>, p: nat): Result<(CoalSection, nat)>
  {
    var name :- L.readString(d, p);
    var count :- L.readInt(d, name.1);
    var fields :- ReadPairs(L, d, count.1, count.0, []);
    Ok((CoalSection(name.0, fields.0), fields.1))
  }

  /** n sections. */
  function ReadSections(L: Layout, d: seq<byte>, p: nat, n: int, acc: seq<CoalSection>)
    : Result<(seq<CoalSection>, nat)>
    decreases if n > 0 then n else 0
  {
    if n <= 0 then Ok((acc, p))
    else
      var section :- ReadSection(L, d, p);
      ReadSections(L, d, section.1, n - 1, acc + [section.0])
  }

  /** One file: a name, a section count, then that many sections, or one
      empty section named "" when the count is not positive. */
  function ReadFile(L: Layout, d: seq<byte>, p: nat): Result<(CoalFile, nat)>
  {
    var name :- L.readString(d, p);
    var count :- L.readInt(d, name.1);
    var sections :- if count.0 > 0 then ReadSections(L, d, count.1, count.0, []) else Ok(([CoalSection([], [])], count.1));
    Ok((CoalFile(name.0, sections.0), sections.1))
  }

  /** n files. */
  function ReadFiles(L: Layout, d: seq<byte>, p: nat, n: int, acc: seq<CoalFile>): Result<(seq<CoalFile>, nat)>
    decreases if n > 0 then n else 0
  {
    if n <= 0 then Ok((acc, p))
    else
      var file :- ReadFile(L, d, p);
      ReadFiles(L, d, file.1, n - 1, acc + [file.0])
  }

  /** The files Load builds from an archive, or the exception it raises. */
  function LoadBytes(L: Layout, d: seq<byte>): Result<seq<CoalFile>>
  {
    var count :- L.readInt(d, 0);
    var files :- ReadFiles(L, d, count.1, count.0, []);
    Ok(files.0)
  }

  // ---------------------------------------------------------------------
  // Load.

  ghost predicate Reading(bin: CoalFileStream)
    reads bin
  {
    bin.Valid() && bin.format == MassEffect12LE
  }

  /** One pair of the pair loop. */
  method LoadPair(bin: CoalFileStream) returns (r: Result<CoalField>)
    requires Reading(bin)
    modifies bin
    ensures Reading(bin) && bin.data == old(bin.data)
    ensures Follows(r, bin.pos, ReadPair(ME12, old(bin.data), old(bin.pos)))
  {
    var fieldName :- bin.ReadString();
    var fieldValue :- bin.ReadString();
    return Ok(CoalField(fieldName, [fieldValue]));
  }

  /** The pair loop of a section. */
  method LoadFields(bin: CoalFileStream, numFields: int32) returns (r: Result<seq<CoalField>>)
    requires Reading(bin)
    modifies bin
    ensures Reading(bin) && bin.data == old(bin.data)
    ensures Follows(r, bin.pos, ReadPairs(ME12, old(bin.data), old(bin.pos), numFields, []))
  {
    ghost var d := bin.data;
    ghost var spec := ReadPairs(ME12, d, bin.pos, numFields, []);
    ghost var left: int := numFields;
    var fields: seq<CoalField> := [];
    var i := 0;
    while i < numFields
      invariant Reading(bin) && bin.data == d
      invariant left == numFields - i && ReadPairs(ME12, d, bin.pos, left, fields) == spec
      decreases left
    {
      var field :- LoadPair(bin);
      fields := fields + [field];
      i := i + 1;
      left := left - 1;
    }
    return Ok(fields);
  }

  /** One section of the section loop: its name, its pair count, then the
      pair loop. */
  method LoadSection(bin: CoalFileStream) returns (r: Result<CoalSection>)
    requires Reading(bin)
    modifies bin
    ensures Reading(bin) && bin.data == old(bin.data)
    ensures Follows(r, bin.pos, ReadSection(ME12, old(bin.data), old(bin.pos)))
  {
    var sectionName :- bin.ReadString();
    var numFields :- bin.ReadInt();
    var fields :- LoadFields(bin, numFields);
    return Ok(CoalSection(sectionName, fields));
  }

  /** The section loop of a file with a positive section count. */
  method LoadSections(bin: CoalFileStream, sectionCount: int32) returns (r: Result<seq<CoalSection>>)
    requires Reading(bin)
    modifies bin
    ensures Reading(bin) && bin.data == old(bin.data)
    ensures Follows(r, bin.pos, ReadSections(ME12, old(bin.data), old(bin.pos), sectionCount, []))
  {
    ghost var d := bin.data;
    ghost var spec := ReadSections(ME12, d, bin.pos, sectionCount, []);
    ghost var left: int := sectionCount;
    var sections: seq<CoalSection> := [];
    var i := 0;
    while i < sectionCount
      invariant Reading(bin) && bin.data == d
      invariant left == sectionCount - i && ReadSections(ME12, d, bin.pos, left, sections) == spec
      decreases left
    {
      var section :- LoadSection(bin);
      sections := sections + [section];
      i := i + 1;
      left := left - 1;
    }
    return Ok(sections);
  }

  /** One file of the file loop: its name and section count, then the
      section loop or, for a count that is not positive, the placeholder. */
  method LoadFile(bin: CoalFileStream) returns (r: Result<CoalFile>)
    requires Reading(bin)
    modifies bin
    ensures Reading(bin) && bin.data == old(bin.data)
    ensures Follows(r, bin.pos, ReadFile(ME12, old(bin.data), old(bin.pos)))
  {
    var fileName :- bin.ReadString();
    var sectionCount :- bin.ReadInt();
    var sections: seq<CoalSection>;
    if sectionCount > 0 {
      sections :- LoadSections(bin, sectionCount);
    } else {
      sections := [CoalSection([], [])];
    }
    return Ok(CoalFile(fileName, sections));
  }

  /** The file loop. */
  method LoadFiles(bin: CoalFileStream, fileCount: int32) returns (r: Result<seq<CoalFile>>)
    requires Reading(bin)
    modifies bin
    ensures Reading(bin) && bin.data == old(bin.data)
    ensures Follows(r, bin.pos, ReadFiles(ME12, old(bin.data), old(bin.pos), fileCount, []))
  {
    ghost var d := bin.data;
    ghost var spec := ReadFiles(ME12, d, bin.pos, fileCount, []);
    ghost var left: int := fileCount;
    var files: seq<CoalFile> := [];
    var i := 0;
    while i < fileCount
      invariant Reading(bin) && bin.data == d
      invariant left == fileCount - i && ReadFiles(ME12, d, bin.pos, left, files) == spec
      decreases left
    {
      var file :- LoadFile(bin);
      files := files + [file];
      i := i + 1;
      left := left - 1;
    }
    return Ok(files);
  }

  /** `Load`: the document an archive holds. The stream becomes the
      archive's bytes, read from the start. */
  method Load(contents: seq<byte>) returns (r: Result<CoalDocument>)
    ensures r.Ok? ==> fresh(r.value) && r.value.format == MassEffect12LE
    ensures LoadBytes(ME12, contents) == if r.Ok? then Ok(r.value.files) else Err(r.error)
  {
    var doc := new CoalDocument(MassEffect12LE);
    var bin := new CoalFileStream(contents, MassEffect12LE);
    var fileCount :- bin.ReadInt();
    var files :- LoadFiles(bin, fileCount);
    doc.files := files;
    return Ok(doc);
  }

  // ---------------------------------------------------------------------
  // Save.

  /** A stream being written from empty: the cursor stays at the end. */
  ghost predicate Writing(bin: CoalFileStream)
    reads bin
  {
    bin.Valid() && bin.format == MassEffect12LE && bin.pos == |bin.data|
  }

  method PutString(bin: CoalFileStream, s: Str)
    requires Writing(bin)
    modifies bin
    ensures Writing(bin) && bin.data == old(bin.data) + EncodeME12(s)
  {
    ghost var d := bin.data;
    var done := bin.WriteString(s);
    SpliceAtEnd(d, EncodeME12(s));
  }

  method PutInt(bin: CoalFileStream, value: int32)
    requires Writing(bin)
    modifies bin
    ensures Writing(bin) && bin.data == old(bin.data) + Int32Bytes(value)
  {
    ghost var d := bin.data;
    bin.WriteInt(value);
    SpliceAtEnd(d, Int32Bytes(value));
  }

  /** One pair: the field name, then the value. */
  method PutPair(bin: CoalFileStream, name: Str, value: Str)
    requires Writing(bin)
    modifies bin
    ensures Writing(bin) && bin.data == old(bin.data) + (EncodeME12(name) + EncodeME12(value))
  {
    PutString(bin, name);
    PutString(bin, value);
    Append3(old(bin.data), EncodeME12(name), EncodeME12(value));
  }

  lemma Append3<T>(x: seq<T>, a: seq<T>, b: seq<T>)
    ensures x + a + b == x + (a + b)
  {
  }

  /** The value loop of one field. */
  method SaveValues(bin: CoalFileStream, field: CoalField)
    requires Writing(bin)
    modifies bin
    ensures Writing(bin) && bin.data == old(bin.data) + ValuesBytes(ME12, field.name, field.values)
  {
    ghost var d := bin.data;
    var values := field.values;
    var i := 0;
    while i < |values|
      invariant 0 <= i <= |values|
      invariant Writing(bin) && bin.data == d + ValuesBytes(ME12, field.name, values[..i])
    {
      ghost var done := ValuesBytes(ME12, field.name, values[..i]);
      ghost var pair := EncodeME12(field.name) + EncodeME12(values[i]);
      PutPair(bin, field.name, values[i]);
      assert values[..i + 1][..i] == values[..i];
      assert ValuesBytes(ME12, field.name, values[..i + 1]) == done + pair by {
        Append3(done, EncodeME12(field.name), EncodeME12(values[i]));
      }
      Append3(d, done, pair);
      i := i + 1;
    }
    assert values[..i] == values;
  }

  /** A section: name, ValueCount, then the field loop. */
  method SaveSection(bin: CoalFileStream, section: CoalSection)
    requires Writing(bin) && section.ValueCount() < 0x8000_0000
    modifies bin
    ensures Writing(bin) && bin.data == old(bin.data) + SectionBytes(ME12, section)
  {
    ghost var d := bin.data;
    PutString(bin, section.name);
    PutInt(bin, section.ValueCount());
    ghost var h := bin.data;
    var fields := section.fields;
    var i := 0;
    while i < |fields|
      invariant 0 <= i <= |fields|
      invariant Writing(bin) && bin.data == h + FieldsBytes(ME12, fields[..i])
    {
      ghost var done := FieldsBytes(ME12, fields[..i]);
      SaveValues(bin, fields[i]);
      assert fields[..i + 1][..i] == fields[..i];
      Append3(h, done, ValuesBytes(ME12, fields[i].name, fields[i].values));
      i := i + 1;
    }
    assert fields[..i] == fields;
    Append3(d, EncodeME12(section.name), Int32Bytes(section.ValueCount()));
    Append3(d, EncodeME12(section.name) + Int32Bytes(section.ValueCount()), FieldsBytes(ME12, fields));
  }

  /** A file: name, section count, then the section loop. */
  method SaveFile(bin: CoalFileStream, file: CoalFile)
    requires Writing(bin) && SectionsFit(file.sections)
    modifies bin
    ensures Writing(bin) && bin.data == old(bin.data) + FileBytes(ME12, file)
  {
    ghost var d := bin.data;
    PutString(bin, file.fileName);
    PutInt(bin, |file.sections|);
    ghost var h := bin.data;
    var sections := file.sections;
    var i := 0;
    while i < |sections|
      invariant 0 <= i <= |sections|
      invariant Writing(bin) && bin.data == h + SectionsBytes(ME12, sections[..i])
    {
      ghost var done := SectionsBytes(ME12, sections[..i]);
      assert sections[i] in file.sections;
      SaveSection(bin, sections[i]);
      assert sections[..i + 1][..i] == sections[..i];
      Append3(h, done, SectionBytes(ME12, sections[i]));
      i := i + 1;
    }
    assert sections[..i] == sections;
    Append3(d, EncodeME12(file.fileName), Int32Bytes(|file.sections|));
    Append3(d, EncodeME12(file.fileName) + Int32Bytes(|file.sections|), SectionsBytes(ME12, sections));
  }

  /** `Save`: the archive of a document. The stream becomes the bytes
      returned, written from empty. */
  method Save(doc: CoalDocument) returns (bytes: seq<byte>)
    requires CountsFit(doc.files)
    ensures bytes == SaveBytes(ME12, doc.files)
  {
    var bin := new CoalFileStream([], MassEffect12LE);
    var files := doc.files;
    PutInt(bin, |files|);
    assert [] + Int32Bytes(|files|) == Int32Bytes(|files|);
    ghost var h := bin.data;
    assert h == Int32Bytes(|files|);
    var i := 0;
    while i < |files|
      invariant 0 <= i <= |files|
      invariant Writing(bin) && bin.data == h + FilesBytes(ME12, files[..i])
    {
      ghost var done := FilesBytes(ME12, files[..i]);
      assert files[i] in doc.files;
      SaveFile(bin, files[i]);
      assert files[..i + 1][..i] == files[..i];
      Append3(h, done, FileBytes(ME12, files[i]));
      i := i + 1;
    }
    assert files[..i] == files;
    bytes := bin.data;
  }
}
