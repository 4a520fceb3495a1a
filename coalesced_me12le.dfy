/** CoalescedConverterME12LE: the older converter for the ME1/2 LE archive
    layout, over a CoalescedFileStream of the format the caller names, so
    it reads and writes the ME3 LE string layout too. Decode writes an
    archive out through IniWriter; Encode reads INI lines through
    IniReader into an EncDoc and writes that through the stream. With
    whatIf set, neither writes its output. */
module CoalescedME12LEConversion {
  import opened Wrappers
  import opened Primitives
  import opened Formats
  import opened ByteCodec
  import opened StringCodec
  import opened Document
  import opened EncDocument
  import opened CoalescedStream
  import Utf8
  import Ini
  import ME12LE
  import ME12LERoundTrip
  import DocumentRoundTrip
  import CoalescedConversion

  // ---------------------------------------------------------------------
  // The stream's layouts.

  /** A string the ME3 LE layout keeps: no surrogate halves, which its
      UTF-8 round trip does not keep, and at most 32,767 bytes of UTF-8. */
  predicate ME3LEStorable(s: Str)
  {
    Utf8.NoSurrogates(s) && |Utf8.Encode(s)| <= 0x7FFF
  }

  /** The bytes the ME3 LE WriteString emits; a string it refuses has none
      (the write raises before any byte of it). */
  function ME3LEWritten(s: Str): seq<byte>
  {
    match EncodeME3LE(s)
    case Ok(b) => b
    case Err(_) => []
  }

  const ME3LELayout: ME12LE.Layout := ME12LE.Layout(ReadME3LEAt, ME3LEWritten, ReadInt32At, Int32Bytes, ME3LEStorable)

  /** The layout of a stream of a known format. */
  function StreamLayout(format: CoalescedFormat): ME12LE.Layout
    requires format != CoalescedUnknown
  {
    if format == CoalescedME12LE then ME12LE.ME12 else ME3LELayout
  }

  /** The stream reads what the layout reads. */
  lemma StreamReads(format: CoalescedFormat, d: seq<byte>, p: nat)
    requires format != CoalescedUnknown
    ensures StreamLayout(format).readString(d, p) == ReadCoalescedStringAt(format, d, p)
    ensures StreamLayout(format).readInt(d, p) == ReadInt32At(d, p)
  {
  }

  /** A string the stream's WriteString takes. */
  predicate Writable(format: CoalescedFormat, s: Str)
  {
    EncodeCoalescedString(format, s).Ok?
  }

  /** The stream writes what the layout writes, and refuses a string only
      as too long. */
  lemma StreamWrites(format: CoalescedFormat, s: Str, v: int)
    requires format != CoalescedUnknown
    ensures Writable(format, s) ==> EncodeCoalescedString(format, s) == Ok(StreamLayout(format).writeString(s))
    ensures !Writable(format, s) ==> EncodeCoalescedString(format, s) == Err(ArgumentTooLong)
    ensures StreamLayout(format).writeInt(v) == Int32Bytes(v)
  {
  }

  lemma ME3LEReadsBackAt(s: Str, d: seq<byte>, q: nat)
    requires ME3LEStorable(s) && Stored(d, q, ME3LEWritten(s))
    ensures ReadME3LEAt(d, q) == Ok((s, q + |ME3LEWritten(s)|))
  {
    ME3LERoundTrip([], s, []);
    var e := ME3LEWritten(s);
    StoredSlice(d, q, e);
    var pre, rest := d[..q], d[q + |e|..];
    assert d == pre + e + rest;
    ME3LERoundTrip(pre, s, rest);
  }

  lemma ME3LEStringsReadBack()
    ensures ME12LERoundTrip.StringsReadBack(ME3LELayout)
  {
    assert ME3LELayout.readString == ReadME3LEAt && ME3LELayout.writeString == ME3LEWritten && ME3LELayout.keeps == ME3LEStorable;
    forall s: Str, d: seq<byte>, q: nat | ME3LELayout.keeps(s) && Stored(d, q, ME3LELayout.writeString(s))
      ensures ME3LELayout.readString(d, q) == Ok((s, q + |ME3LELayout.writeString(s)|))
    {
      ME3LEReadsBackAt(s, d, q);
    }
  }

  lemma ME3LEIntsReadBack()
    ensures ME12LERoundTrip.IntsReadBack(ME3LELayout)
  {
    forall v: int32, d: seq<byte>, q: nat | Stored(d, q, ME3LELayout.writeInt(v))
      ensures ME3LELayout.readInt(d, q) == Ok((v, q + |ME3LELayout.writeInt(v)|))
    {
      StoredSlice(d, q, Int32Bytes(v));
      ReadInt32Of(d, q, v);
    }
  }

  /** Either layout loads back what it saves. */
  lemma StreamRoundTrip(format: CoalescedFormat, files: seq<CoalFile>)
    requires format != CoalescedUnknown && ME12LERoundTrip.Storables(StreamLayout(format), files)
    ensures ME12LE.LoadBytes(StreamLayout(format), ME12LE.SaveBytes(StreamLayout(format), files))
            == Ok(ME12LERoundTrip.ReloadedFiles(files))
  {
    if format == CoalescedME12LE {
      ME12LERoundTrip.ME12StringsReadBack();
      ME12LERoundTrip.ME12IntsReadBack();
    } else {
      ME3LEStringsReadBack();
      ME3LEIntsReadBack();
    }
    ME12LERoundTrip.LayoutRoundTrip(StreamLayout(format), files);
  }

  // ---------------------------------------------------------------------
  // What Decode and Encode compute.

  /** The line IniWriter opens with: the detector's marker line, a space,
      the format's name. */
  function FirstLine(marker: Str, format: CoalescedFormat): Str
  {
    marker + [Ini.Space] + Ini.FormatName(format)
  }

  /** `Decode`: the INI lines of an archive, or the exception. An Unknown
      format is refused when the stream is opened. */
  function DecodeLines(format: CoalescedFormat, marker: Str, d: seq<byte>): Result<seq<Str>>
  {
    if format == CoalescedUnknown then Err(ArgumentOutOfRange)
    else
      var files :- ME12LE.LoadBytes(StreamLayout(format), d);
      Ok([FirstLine(marker, format)] + EventsText(Events(files), false))
  }

  /** Encode's read loop from line next on, with the builder b: the
      document, or the first exception. */
  function ReadDocFrom(lines: seq<Str>, next: nat, b: Building): (r: Result<Building>)
    requires next <= |lines| && b.Valid()
    ensures r.Ok? ==> r.value.Valid()
    decreases |lines| - next
  {
    if next == |lines| then Ok(b)
    else
      var read :- Ini.ReadFrom(lines, next, true, true);
      var result := read.0;
      if result.kind == Ini.Section then
        ReadDocFrom(lines, read.1, OnHeader(b, result.value1.value, result.value2.value))
      else if result.kind == Ini.Field then
        match OnField(b, result.value1.value, result.value2.value)
        case None => Err(IniNoCurrentSection(result.lineNumber))
        case Some(b') => ReadDocFrom(lines, read.1, b')
      else Ok(b)
  }

  predicate FieldWritable(format: CoalescedFormat, field: EncField)
  {
    Writable(format, field.name) && Writable(format, field.value)
  }

  predicate SectionWritable(format: CoalescedFormat, section: EncSection)
  {
    Writable(format, section.name) &&
    forall k :: 0 <= k < |section.fields| ==> FieldWritable(format, section.fields[k])
  }

  predicate FileWritable(format: CoalescedFormat, file: EncFile)
  {
    Writable(format, file.fileName) &&
    forall k :: 0 <= k < |file.sections| ==> SectionWritable(format, file.sections[k])
  }

  /** A document every string of which the stream's WriteString takes. */
  predicate DocWritable(format: CoalescedFormat, files: seq<EncFile>)
  {
    forall k :: 0 <= k < |files| ==> FileWritable(format, files[k])
  }

  /** `Encode`: the archive of the INI lines, or the first exception: a
      line the reader refuses, a field before any section, an Unknown
      format when the stream is opened, or a string the ME3 LE layout
      cannot hold. */
  function EncodeBytes(format: CoalescedFormat, lines: seq<Str>): Result<seq<byte>>
  {
    var b :- ReadDocFrom(lines, 0, Empty);
    if format == CoalescedUnknown then Err(ArgumentOutOfRange)
    else if DocWritable(format, b.files) then Ok(ME12LE.SaveBytes(StreamLayout(format), Lift(b.files)))
    else Err(ArgumentTooLong)
  }

  /** The outcome of a run: with whatIf set, nothing is handed out. */
  function Outcome<T>(r: Result<T>, whatIf: bool): Result<Option<T>>
  {
    match r
    case Err(e) => Err(e)
    case Ok(v) => Ok(if whatIf then None else Some(v))
  }

  // ---------------------------------------------------------------------
  // Round trips.

  /** A skipped first line is passed over by the read loop. */
  lemma SkipFirst(lines: seq<Str>, b: Building)
    requires lines != [] && Ini.Skipped(lines[0]) && b.Valid()
    ensures ReadDocFrom(lines, 0, b) == ReadDocFrom(lines, 1, b)
  {
    assert Ini.ReadFrom(lines, 0, true, true) == Ini.ReadFrom(lines, 1, true, true);
  }

  /** Reading the lines IniWriter writes for readable events drives the
      builder as the events do. */
  lemma {:induction false} ReadDocText(lines: seq<Str>, n: nat, events: seq<Event>, fieldsWritten: bool, b: Building)
    requires n <= |lines| && lines[n..] == EventsText(events, fieldsWritten)
    requires DocumentRoundTrip.Readable(events) && b.Valid() && Rebuild(events, b).Some?
    ensures ReadDocFrom(lines, n, b) == Ok(Rebuild(events, b).value)
    decreases |events|
  {
    if events == [] {
      assert |lines[n..]| == 0;
    } else {
      var rest := events[1..];
      assert DocumentRoundTrip.Readable(rest) by {
        forall i | 0 <= i < |rest| ensures rest[i] == events[i + 1] {
        }
      }
      match events[0]
      case Header(fileName, sectionName) =>
        assert fileName != [];
        var after := DocumentRoundTrip.ReadHeader(lines, n, fileName, sectionName, fieldsWritten, EventsText(rest, false));
        ReadDocText(lines, after, rest, false, OnHeader(b, fileName, sectionName));
      case Value(name, value) =>
        assert Ini.PlainKey(name);
        DocumentRoundTrip.ReadField(lines, n, name, value, EventsText(rest, true));
        ReadDocText(lines, n + 1, rest, true, OnField(b, name, value).value);
    }
  }

  /** Decode then Encode gives back the archive, and Encode then Decode the
      lines, for every document with a header per file and a name per
      section, whose names the INI lines hold, whose strings the format
      keeps, and whose first line (the marker's) the reader skips. */
  lemma RoundTrip(format: CoalescedFormat, marker: Str, doc: seq<EncFile>)
    requires format != CoalescedUnknown && Ini.Skipped(FirstLine(marker, format))
    requires Buildable(doc) && DocumentRoundTrip.Readable(EncEvents(doc))
    requires ME12LERoundTrip.Storables(StreamLayout(format), Lift(doc)) && DocWritable(format, doc)
    ensures var d := ME12LE.SaveBytes(StreamLayout(format), Lift(doc));
            var lines := [FirstLine(marker, format)] + EventsText(EncEvents(doc), false);
            DecodeLines(format, marker, d) == Ok(lines) && EncodeBytes(format, lines) == Ok(d)
  {
    StreamRoundTrip(format, Lift(doc));
    CoalescedConversion.ReloadedEvents(doc);
    var lines := [FirstLine(marker, format)] + EventsText(EncEvents(doc), false);
    RebuildFiles(doc);
    assert lines[1..] == EventsText(EncEvents(doc), false);
    ReadDocText(lines, 1, EncEvents(doc), false, Empty);
    SkipFirst(lines, Empty);
  }

  /** A field line before any header is refused with its line number. */
  lemma FieldBeforeHeader(format: CoalescedFormat, name: Str, value: Str)
    requires Ini.PlainKey(name)
    ensures EncodeBytes(format, [Ini.FieldLine(name, value)]) == Err(IniNoCurrentSection(1))
  {
    DocumentRoundTrip.ReadField([Ini.FieldLine(name, value)], 0, name, value, []);
  }

  /** The stream raises at the end of its bytes, so an empty archive is an
      error here, where the oldest converter reads it as no files. */
  lemma DecodeEmpty(format: CoalescedFormat, marker: Str)
    ensures DecodeLines(format, marker, []) == Err(if format == CoalescedUnknown then ArgumentOutOfRange else EndOfStream)
  {
  }

  // ---------------------------------------------------------------------
  // Decode's loops.

  ghost predicate Reading(bin: CoalescedFileStream)
    reads bin
  {
    bin.Valid() && bin.format != CoalescedUnknown
  }

  /** A decode loop's outcome r, with the cursor left at newPos: done when
      the reader spec reads, or its exception. */
  predicate Done<T>(r: Result<()>, newPos: nat, spec: Result<(T, nat)>)
  {
    if spec.Ok? then r == Ok(()) && newPos == spec.value.1 else r == Err(spec.error)
  }

  /** r is what a method that does the whole load returns: Ok when spec
      holds the files, the same exception otherwise. */
  predicate Loaded(r: Result<()>, spec: Result<seq<CoalFile>>)
  {
    if spec.Ok? then r == Ok(()) else r == Err(spec.error)
  }

  /** The writer's lines and flag once the calls events are written after
      the lines before, from the flag. */
  predicate Appended(lines: seq<Str>, fieldsWritten: bool, before: seq<Str>, flag: bool, events: seq<Event>)
  {
    lines == before + EventsText(events, flag) && fieldsWritten == WrittenAfter(events, flag)
  }

  function FileEventsOf(file: CoalFile): seq<Event>
  {
    FileEvents(file.fileName, file.sections)
  }

  /** The pair loop: one field line per pair. */
  method DecodeItems(bin: CoalescedFileStream, ini: Ini.IniWriter, numItems: int32) returns (r: Result<()>)
    requires Reading(bin)
    modifies bin, ini
    ensures Reading(bin) && bin.data == old(bin.data)
    ensures var spec := ME12LE.ReadPairs(StreamLayout(bin.format), old(bin.data), old(bin.pos), numItems, []);
            Done(r, bin.pos, spec) &&
            (r.Ok? ==> Appended(ini.lines, ini.fieldsWritten, old(ini.lines), old(ini.fieldsWritten), FieldsEvents(spec.value.0)))
  {
    ghost var L := StreamLayout(bin.format);
    ghost var d := bin.data;
    ghost var spec := ME12LE.ReadPairs(L, d, bin.pos, numItems, []);
    ghost var start, flag := ini.lines, ini.fieldsWritten;
    ghost var fields: seq<CoalField> := [];
    ghost var left: int := numItems;
    NothingAppended(start, flag);
    var i := 0;
    while i < numItems
      invariant Reading(bin) && bin.data == d
      invariant left == numItems - i && ME12LE.ReadPairs(L, d, bin.pos, left, fields) == spec
      invariant Appended(ini.lines, ini.fieldsWritten, start, flag, FieldsEvents(fields))
      decreases left
    {
      StreamReads(bin.format, d, bin.pos);
      var str :- bin.ReadString();
      StreamReads(bin.format, d, bin.pos);
      var str2 :- bin.ReadString();
      ghost var mid, midFlag := ini.lines, ini.fieldsWritten;
      ini.WriteField(str, str2);
      FieldStep(start, flag, fields, str, str2, mid, midFlag, ini.lines, ini.fieldsWritten);
      fields := fields + [CoalField(str, [str2])];
      i := i + 1;
      left := left - 1;
    }
    return Ok(());
  }

  /** One section: its name, its header line, its pair count, the pairs. */
  method DecodeSection(bin: CoalescedFileStream, ini: Ini.IniWriter, fileName: Str) returns (r: Result<()>)
    requires Reading(bin)
    modifies bin, ini
    ensures Reading(bin) && bin.data == old(bin.data)
    ensures var spec := ME12LE.ReadSection(StreamLayout(bin.format), old(bin.data), old(bin.pos));
            Done(r, bin.pos, spec) &&
            (r.Ok? ==> Appended(ini.lines, ini.fieldsWritten, old(ini.lines), old(ini.fieldsWritten), SectionEvents(fileName, spec.value.0)))
  {
    ghost var d, p := bin.data, bin.pos;
    StreamReads(bin.format, d, bin.pos);
    var sectionName :- bin.ReadString();
    ini.WriteSection(fileName, sectionName);
    ghost var mid := ini.lines;
    StreamReads(bin.format, d, bin.pos);
    var numItems :- bin.ReadInt();
    var u :- DecodeItems(bin, ini, numItems);
    ghost var section := ME12LE.ReadSection(StreamLayout(bin.format), d, p).value.0;
    HeaderStep(old(ini.lines), old(ini.fieldsWritten), fileName, sectionName, FieldsEvents(section.fields),
               mid, ini.lines, ini.fieldsWritten);
    return Ok(());
  }

  /** The section loop of a file with a positive section count. */
  method DecodeSections(bin: CoalescedFileStream, ini: Ini.IniWriter, fileName: Str, sectionCount: int32)
    returns (r: Result<()>)
    requires Reading(bin)
    modifies bin, ini
    ensures Reading(bin) && bin.data == old(bin.data)
    ensures var spec := ME12LE.ReadSections(StreamLayout(bin.format), old(bin.data), old(bin.pos), sectionCount, []);
            Done(r, bin.pos, spec) &&
            (r.Ok? ==> Appended(ini.lines, ini.fieldsWritten, old(ini.lines), old(ini.fieldsWritten), FileEvents(fileName, spec.value.0)))
  {
    ghost var L := StreamLayout(bin.format);
    ghost var d := bin.data;
    ghost var spec := ME12LE.ReadSections(L, d, bin.pos, sectionCount, []);
    ghost var start, flag := ini.lines, ini.fieldsWritten;
    ghost var sections: seq<CoalSection> := [];
    ghost var left: int := sectionCount;
    NothingAppended(start, flag);
    var sectionIndex := 0;
    while sectionIndex < sectionCount
      invariant Reading(bin) && bin.data == d
      invariant left == sectionCount - sectionIndex && ME12LE.ReadSections(L, d, bin.pos, left, sections) == spec
      invariant Appended(ini.lines, ini.fieldsWritten, start, flag, FileEvents(fileName, sections))
      decreases left
    {
      ghost var p := bin.pos;
      ghost var read := ME12LE.ReadSection(L, d, p);
      ghost var mid, midFlag := ini.lines, ini.fieldsWritten;
      var u :- DecodeSection(bin, ini, fileName);
      ghost var section := read.value.0;
      assert ME12LE.ReadSections(L, d, bin.pos, left - 1, sections + [section]) == spec;
      SectionStep(start, flag, fileName, sections, section, mid, midFlag, ini.lines, ini.fieldsWritten);
      sections := sections + [section];
      sectionIndex := sectionIndex + 1;
      left := left - 1;
    }
    return Ok(());
  }

  /** One file: its name and section count, then the section loop or, for a
      count that is not positive, the lone `[file|]` header. */
  method DecodeFile(bin: CoalescedFileStream, ini: Ini.IniWriter) returns (r: Result<()>)
    requires Reading(bin)
    modifies bin, ini
    ensures Reading(bin) && bin.data == old(bin.data)
    ensures var spec := ME12LE.ReadFile(StreamLayout(bin.format), old(bin.data), old(bin.pos));
            Done(r, bin.pos, spec) &&
            (r.Ok? ==> Appended(ini.lines, ini.fieldsWritten, old(ini.lines), old(ini.fieldsWritten), FileEventsOf(spec.value.0)))
  {
    ghost var d := bin.data;
    StreamReads(bin.format, d, bin.pos);
    var fileName :- bin.ReadString();
    StreamReads(bin.format, d, bin.pos);
    var sectionCount :- bin.ReadInt();
    if sectionCount > 0 {
      var u :- DecodeSections(bin, ini, fileName, sectionCount);
    } else {
      ini.WriteSection(fileName, []);
      EmptyFileStep(old(ini.lines), old(ini.fieldsWritten), fileName, ini.lines, ini.fieldsWritten);
    }
    return Ok(());
  }

  /** The file loop. */
  method DecodeFiles(bin: CoalescedFileStream, ini: Ini.IniWriter, fileCount: int32) returns (r: Result<()>)
    requires Reading(bin)
    modifies bin, ini
    ensures Reading(bin) && bin.data == old(bin.data)
    ensures var spec := ME12LE.ReadFiles(StreamLayout(bin.format), old(bin.data), old(bin.pos), fileCount, []);
            Done(r, bin.pos, spec) &&
            (r.Ok? ==> Appended(ini.lines, ini.fieldsWritten, old(ini.lines), old(ini.fieldsWritten), Events(spec.value.0)))
  {
    ghost var L := StreamLayout(bin.format);
    ghost var d := bin.data;
    ghost var spec := ME12LE.ReadFiles(L, d, bin.pos, fileCount, []);
    ghost var start, flag := ini.lines, ini.fieldsWritten;
    ghost var files: seq<CoalFile> := [];
    ghost var left: int := fileCount;
    NothingAppended(start, flag);
    var fileIndex := 0;
    while fileIndex < fileCount
      invariant Reading(bin) && bin.data == d
      invariant left == fileCount - fileIndex && ME12LE.ReadFiles(L, d, bin.pos, left, files) == spec
      invariant Appended(ini.lines, ini.fieldsWritten, start, flag, Events(files))
      decreases left
    {
      ghost var p := bin.pos;
      ghost var read := ME12LE.ReadFile(L, d, p);
      ghost var mid, midFlag := ini.lines, ini.fieldsWritten;
      var u :- DecodeFile(bin, ini);
      ghost var file := read.value.0;
      assert ME12LE.ReadFiles(L, d, bin.pos, left - 1, files + [file]) == spec;
      FileStep(start, flag, files, file, mid, midFlag, ini.lines, ini.fieldsWritten);
      files := files + [file];
      fileIndex := fileIndex + 1;
      left := left - 1;
    }
    return Ok(());
  }

  /** The whole archive: the file count, then the files. */
  method DecodeArchive(bin: CoalescedFileStream, ini: Ini.IniWriter) returns (r: Result<()>)
    requires Reading(bin) && bin.pos == 0
    modifies bin, ini
    ensures var spec := ME12LE.LoadBytes(StreamLayout(bin.format), old(bin.data));
            Loaded(r, spec) &&
            (r.Ok? ==> Appended(ini.lines, ini.fieldsWritten, old(ini.lines), old(ini.fieldsWritten), Events(spec.value)))
  {
    StreamReads(bin.format, bin.data, 0);
    var fileCount :- bin.ReadInt();
    r := DecodeFiles(bin, ini, fileCount);
  }

  /** The INI lines of the archive on bin, under the header line. */
  method DecodeOpened(bin: CoalescedFileStream, marker: Str) returns (r: Result<seq<Str>>)
    requires Reading(bin) && bin.pos == 0
    modifies bin
    ensures r == DecodeLines(bin.format, marker, old(bin.data))
  {
    var ini := new Ini.IniWriter(marker, bin.format);
    assert ini.lines + [] == [FirstLine(marker, bin.format)];
    var u :- DecodeArchive(bin, ini);
    return Ok(ini.lines);
  }

  /** Decode's body: open the stream, then decode it. */
  method DecodeStream(format: CoalescedFormat, contents: seq<byte>, marker: Str) returns (r: Result<seq<Str>>)
    ensures r == DecodeLines(format, marker, contents)
  {
    var bin :- CoalescedFileStream.Open(contents, format);
    r := DecodeOpened(bin, marker);
  }

  /** The converter, with the format of its stream and the flag that keeps
      it from writing its output. */
  class CoalescedConverterME12LE {
    const format: CoalescedFormat
    const whatIf: bool

    constructor (format: CoalescedFormat, whatIf: bool)
      ensures this.format == format && this.whatIf == whatIf
    {
      this.format := format;
      this.whatIf := whatIf;
    }

    /** `Decode`: the INI lines of an archive; marker is the detector's
        first line. */
    method Decode(contents: seq<byte>, marker: Str) returns (r: Result<Option<seq<Str>>>)
      ensures r == Outcome(DecodeLines(format, marker, contents), whatIf)
    {
      var lines :- DecodeStream(format, contents, marker);
      if whatIf {
        return Ok(None);
      }
      return Ok(Some(lines));
    }

    /** `Encode`: the read loop builds the EncDoc, then the stream is
        opened and the document written. */
    method Encode(lines: seq<Str>) returns (r: Result<Option<seq<byte>>>)
      ensures r == Outcome(EncodeBytes(format, lines), whatIf)
    {
      var doc :- ReadDoc(lines);
      var bin :- CoalescedFileStream.Open([], format);
      var u :- WriteDoc(bin, doc.files);
      if whatIf {
        return Ok(None);
      }
      return Ok(Some(bin.data));
    }
  }

  // ---------------------------------------------------------------------
  // Encode's loops.

  /** Encode's read loop: headers open files and sections, fields go into
      the current section, and the reader's end stops it. */
  method ReadDoc(lines: seq<Str>) returns (r: Result<Building>)
    ensures r == ReadDocFrom(lines, 0, Empty)
  {
    ghost var spec := ReadDocFrom(lines, 0, Empty);
    var ini := new Ini.IniReader(lines, true, true);
    var doc := Empty;
    while !ini.AtEnd()
      invariant ini.Valid() && ini.lines == lines && ini.hasEmbeddedFileNames && ini.unescapeStrings
      invariant doc.Valid() && ReadDocFrom(lines, ini.lineNumber, doc) == spec
      decreases |lines| - ini.lineNumber
    {
      var read :- ini.Read();
      if read.kind == Ini.Section {
        doc := OnHeader(doc, read.value1.value, read.value2.value);
      } else if read.kind == Ini.Field {
        if !doc.section {
          return Err(IniNoCurrentSection(read.lineNumber));
        }
        doc := OnField(doc, read.value1.value, read.value2.value).value;
      } else {
        break;
      }
    }
    return Ok(doc);
  }

  /** A stream being written from empty: the cursor stays at the end. */
  ghost predicate Writing(bin: CoalescedFileStream)
    reads bin
  {
    bin.Valid() && bin.format != CoalescedUnknown && bin.pos == |bin.data|
  }

  method PutString(bin: CoalescedFileStream, s: Str) returns (r: Result<()>)
    requires Writing(bin)
    modifies bin
    ensures Writing(bin)
    ensures r.Ok? <==> Writable(bin.format, s)
    ensures r.Ok? ==> bin.data == old(bin.data) + StreamLayout(bin.format).writeString(s)
    ensures r.Err? ==> r.error == ArgumentTooLong
  {
    ghost var d := bin.data;
    StreamWrites(bin.format, s, 0);
    r := bin.WriteString(s);
    if r.Ok? {
      SpliceAtEnd(d, StreamLayout(bin.format).writeString(s));
    }
  }

  method PutInt(bin: CoalescedFileStream, v: int)
    requires Writing(bin)
    modifies bin
    ensures Writing(bin) && bin.data == old(bin.data) + StreamLayout(bin.format).writeInt(v)
  {
    ghost var d := bin.data;
    StreamWrites(bin.format, [], v);
    bin.WriteInt(Wrap32(v));
    Int32BytesWrap(v);
    SpliceAtEnd(d, Int32Bytes(v));
  }

  /** One field: its name, then its value. */
  method PutField(bin: CoalescedFileStream, field: EncField) returns (r: Result<()>)
    requires Writing(bin)
    modifies bin
    ensures Writing(bin)
    ensures r.Ok? <==> FieldWritable(bin.format, field)
    ensures r.Ok? ==> bin.data == old(bin.data) + ME12LE.FieldsBytes(StreamLayout(bin.format), [LiftField(field)])
    ensures r.Err? ==> r.error == ArgumentTooLong
  {
    var u :- PutString(bin, field.name);
    u :- PutString(bin, field.value);
    OneFieldBytes(StreamLayout(bin.format), field);
    Associative3(old(bin.data), StreamLayout(bin.format).writeString(field.name), StreamLayout(bin.format).writeString(field.value));
    return Ok(());
  }

  /** One section: its name, its field count, then name and value per
      field. */
  method PutSection(bin: CoalescedFileStream, section: EncSection) returns (r: Result<()>)
    requires Writing(bin)
    modifies bin
    ensures Writing(bin)
    ensures r.Ok? <==> SectionWritable(bin.format, section)
    ensures r.Ok? ==> bin.data == old(bin.data) + ME12LE.SectionBytes(StreamLayout(bin.format), LiftSection(section))
    ensures r.Err? ==> r.error == ArgumentTooLong
  {
    ghost var L := StreamLayout(bin.format);
    var fields := section.fields;
    var u :- PutString(bin, section.name);
    PutInt(bin, |fields|);
    ghost var h := bin.data;
    assert h + [] == h;
    var i := 0;
    while i < |fields|
      invariant 0 <= i <= |fields|
      invariant Writing(bin) && bin.data == h + ME12LE.FieldsBytes(L, LiftFields(fields[..i]))
      invariant forall k :: 0 <= k < i ==> FieldWritable(bin.format, fields[k])
    {
      ghost var done := ME12LE.FieldsBytes(L, LiftFields(fields[..i]));
      u :- PutField(bin, fields[i]);
      FieldsWritableStep(bin.format, fields, i);
      FieldsBytesStep(L, fields, i);
      Associative3(h, done, ME12LE.FieldsBytes(L, [LiftField(fields[i])]));
      i := i + 1;
    }
    assert fields[..i] == fields;
    SectionBytesOf(L, section);
    Associative3(old(bin.data), L.writeString(section.name), L.writeInt(|fields|));
    Associative3(old(bin.data), L.writeString(section.name) + L.writeInt(|fields|), ME12LE.FieldsBytes(L, LiftFields(fields)));
    return Ok(());
  }

  /** One file: its name, its section count, then the sections. */
  method PutFile(bin: CoalescedFileStream, file: EncFile) returns (r: Result<()>)
    requires Writing(bin)
    modifies bin
    ensures Writing(bin)
    ensures r.Ok? <==> FileWritable(bin.format, file)
    ensures r.Ok? ==> bin.data == old(bin.data) + ME12LE.FileBytes(StreamLayout(bin.format), LiftFile(file))
    ensures r.Err? ==> r.error == ArgumentTooLong
  {
    ghost var L := StreamLayout(bin.format);
    var sections := file.sections;
    var u :- PutString(bin, file.fileName);
    PutInt(bin, |sections|);
    ghost var h := bin.data;
    assert h + [] == h;
    var i := 0;
    while i < |sections|
      invariant 0 <= i <= |sections|
      invariant Writing(bin) && bin.data == h + ME12LE.SectionsBytes(L, LiftSections(sections[..i]))
      invariant forall k :: 0 <= k < i ==> SectionWritable(bin.format, sections[k])
    {
      ghost var done := ME12LE.SectionsBytes(L, LiftSections(sections[..i]));
      u :- PutSection(bin, sections[i]);
      SectionsWritableStep(bin.format, sections, i);
      SectionsBytesStep(L, sections, i);
      Associative3(h, done, ME12LE.SectionBytes(L, LiftSection(sections[i])));
      i := i + 1;
    }
    assert sections[..i] == sections;
    Associative3(old(bin.data), L.writeString(file.fileName), L.writeInt(|sections|));
    Associative3(old(bin.data), L.writeString(file.fileName) + L.writeInt(|sections|), ME12LE.SectionsBytes(L, LiftSections(sections)));
    return Ok(());
  }

  /** Encode's writes, on the stream just opened: the file count, then the
      files. */
  method WriteDoc(bin: CoalescedFileStream, files: seq<EncFile>) returns (r: Result<()>)
    requires Writing(bin) && bin.data == []
    modifies bin
    ensures Writing(bin)
    ensures r.Ok? <==> DocWritable(bin.format, files)
    ensures r.Ok? ==> bin.data == ME12LE.SaveBytes(StreamLayout(bin.format), Lift(files))
    ensures r.Err? ==> r.error == ArgumentTooLong
  {
    ghost var L := StreamLayout(bin.format);
    PutInt(bin, |files|);
    ghost var h := bin.data;
    assert h == L.writeInt(|files|) && h + [] == h;
    var i := 0;
    while i < |files|
      invariant 0 <= i <= |files|
      invariant Writing(bin) && bin.data == h + ME12LE.FilesBytes(L, Lift(files[..i]))
      invariant forall k :: 0 <= k < i ==> FileWritable(bin.format, files[k])
    {
      ghost var done := ME12LE.FilesBytes(L, Lift(files[..i]));
      var u :- PutFile(bin, files[i]);
      FilesWritableStep(bin.format, files, i);
      FilesBytesStep(L, files, i);
      Associative3(h, done, ME12LE.FileBytes(L, LiftFile(files[i])));
      i := i + 1;
    }
    assert files[..i] == files;
    return Ok(());
  }

  // ---------------------------------------------------------------------
  // Helpers for the loops.

  lemma FieldsWritableStep(format: CoalescedFormat, fields: seq<EncField>, i: nat)
    requires i < |fields|
    requires forall k :: 0 <= k < i ==> FieldWritable(format, fields[k])
    requires FieldWritable(format, fields[i])
    ensures forall k :: 0 <= k < i + 1 ==> FieldWritable(format, fields[k])
  {
  }

  lemma SectionsWritableStep(format: CoalescedFormat, sections: seq<EncSection>, i: nat)
    requires i < |sections|
    requires forall k :: 0 <= k < i ==> SectionWritable(format, sections[k])
    requires SectionWritable(format, sections[i])
    ensures forall k :: 0 <= k < i + 1 ==> SectionWritable(format, sections[k])
  {
  }

  lemma FilesWritableStep(format: CoalescedFormat, files: seq<EncFile>, i: nat)
    requires i < |files|
    requires forall k :: 0 <= k < i ==> FileWritable(format, files[k])
    requires FileWritable(format, files[i])
    ensures forall k :: 0 <= k < i + 1 ==> FileWritable(format, files[k])
  {
  }

  lemma NothingAppended(lines: seq<Str>, fieldsWritten: bool)
    ensures Appended(lines, fieldsWritten, lines, fieldsWritten, [])
  {
    assert lines + [] == lines;
  }

  /** Writing two runs of calls one after the other. */
  lemma Chain(before: seq<Str>, flag: bool, a: seq<Event>, mid: seq<Str>, midFlag: bool, b: seq<Event>,
              lines: seq<Str>, fieldsWritten: bool)
    requires Appended(mid, midFlag, before, flag, a) && Appended(lines, fieldsWritten, mid, midFlag, b)
    ensures Appended(lines, fieldsWritten, before, flag, a + b)
  {
    EventsTextAppend(a, b, flag);
    Associative3(before, EventsText(a, flag), EventsText(b, midFlag));
    if b == [] {
      assert a + b == a;
    } else {
      assert (a + b)[|a + b| - 1] == b[|b| - 1];
    }
  }

  /** The field line of one more pair. */
  lemma FieldStep(before: seq<Str>, flag: bool, fields: seq<CoalField>, name: Str, value: Str,
                  mid: seq<Str>, midFlag: bool, lines: seq<Str>, fieldsWritten: bool)
    requires Appended(mid, midFlag, before, flag, FieldsEvents(fields))
    requires lines == mid + [Ini.FieldLine(name, value)] && fieldsWritten
    ensures Appended(lines, fieldsWritten, before, flag, FieldsEvents(fields + [CoalField(name, [value])]))
  {
    var all := fields + [CoalField(name, [value])];
    assert all[..|all| - 1] == fields;
    assert FieldEvents(CoalField(name, [value])) == [Value(name, value)] by {
      assert [value][..0] == [];
    }
    var one := [Value(name, value)];
    assert EventsText(one, midFlag) == [Ini.FieldLine(name, value)] by {
      assert one[1..] == [];
    }
    Chain(before, flag, FieldsEvents(fields), mid, midFlag, one, lines, fieldsWritten);
  }

  /** A header, then its fields' lines. */
  lemma HeaderStep(before: seq<Str>, flag: bool, fileName: Str, sectionName: Str, fields: seq<Event>,
                   mid: seq<Str>, lines: seq<Str>, fieldsWritten: bool)
    requires mid == before + (if flag then [[]] else []) + [Ini.SectionLine(fileName, sectionName)]
    requires Appended(lines, fieldsWritten, mid, false, fields)
    ensures Appended(lines, fieldsWritten, before, flag, [Header(fileName, sectionName)] + fields)
  {
    var one := [Header(fileName, sectionName)];
    assert EventsText(one, flag) == EventLines(Header(fileName, sectionName), flag) by {
      assert one[1..] == [];
    }
    Associative3(before, if flag then [[]] else [], [Ini.SectionLine(fileName, sectionName)]);
    Chain(before, flag, one, mid, false, fields, lines, fieldsWritten);
  }

  /** The lines of one more section. */
  lemma SectionStep(before: seq<Str>, flag: bool, fileName: Str, sections: seq<CoalSection>, section: CoalSection,
                    mid: seq<Str>, midFlag: bool, lines: seq<Str>, fieldsWritten: bool)
    requires Appended(mid, midFlag, before, flag, FileEvents(fileName, sections))
    requires Appended(lines, fieldsWritten, mid, midFlag, SectionEvents(fileName, section))
    ensures Appended(lines, fieldsWritten, before, flag, FileEvents(fileName, sections + [section]))
  {
    var all := sections + [section];
    assert all[..|all| - 1] == sections;
    Chain(before, flag, FileEvents(fileName, sections), mid, midFlag, SectionEvents(fileName, section), lines, fieldsWritten);
  }

  /** The lines of one more file. */
  lemma FileStep(before: seq<Str>, flag: bool, files: seq<CoalFile>, file: CoalFile,
                 mid: seq<Str>, midFlag: bool, lines: seq<Str>, fieldsWritten: bool)
    requires Appended(mid, midFlag, before, flag, Events(files))
    requires Appended(lines, fieldsWritten, mid, midFlag, FileEventsOf(file))
    ensures Appended(lines, fieldsWritten, before, flag, Events(files + [file]))
  {
    var all := files + [file];
    assert all[..|all| - 1] == files;
    Chain(before, flag, Events(files), mid, midFlag, FileEventsOf(file), lines, fieldsWritten);
  }

  /** A file read with no sections has the one empty section, whose lines
      are the lone header WriteSection(fileName, null) writes. */
  lemma EmptyFileStep(before: seq<Str>, flag: bool, fileName: Str, lines: seq<Str>, fieldsWritten: bool)
    requires lines == before + (if flag then [[]] else []) + [Ini.SectionLine(fileName, [])] && !fieldsWritten
    ensures Appended(lines, fieldsWritten, before, flag, FileEventsOf(CoalFile(fileName, [CoalSection([], [])])))
  {
    var sections := [CoalSection([], [])];
    assert sections[..0] == [];
    var one := [Header(fileName, [])];
    assert FileEvents(fileName, sections) == one;
    assert one[1..] == [];
    Associative3(before, if flag then [[]] else [], [Ini.SectionLine(fileName, [])]);
  }

  /** One lifted field's bytes: its name, then its value. */
  lemma OneFieldBytes(L: ME12LE.Layout, field: EncField)
    ensures ME12LE.FieldsBytes(L, [LiftField(field)]) == L.writeString(field.name) + L.writeString(field.value)
  {
    var one := [LiftField(field)];
    var pair := L.writeString(field.name) + L.writeString(field.value);
    assert one[..0] == [] && one[0] == CoalField(field.name, [field.value]);
    assert [field.value][..0] == [];
    assert ME12LE.ValuesBytes(L, field.name, [field.value]) == [] + pair;
    assert ME12LE.FieldsBytes(L, one) == [] + ME12LE.ValuesBytes(L, field.name, [field.value]);
    assert [] + pair == pair;
  }

  lemma FieldsBytesStep(L: ME12LE.Layout, fields: seq<EncField>, i: nat)
    requires i < |fields|
    ensures ME12LE.FieldsBytes(L, LiftFields(fields[..i + 1]))
            == ME12LE.FieldsBytes(L, LiftFields(fields[..i])) + ME12LE.FieldsBytes(L, [LiftField(fields[i])])
  {
    assert fields[..i + 1][..i] == fields[..i];
    var lifted := LiftFields(fields[..i + 1]);
    assert lifted[..i] == LiftFields(fields[..i]);
    OneFieldBytes(L, fields[i]);
    assert [fields[i].value][..0] == [];
  }

  /** A lifted section's count is its number of fields. */
  lemma SectionBytesOf(L: ME12LE.Layout, section: EncSection)
    ensures ME12LE.SectionBytes(L, LiftSection(section))
            == L.writeString(section.name) + L.writeInt(|section.fields|) + ME12LE.FieldsBytes(L, LiftFields(section.fields))
  {
    LiftValues(section.fields);
  }

  lemma SectionsBytesStep(L: ME12LE.Layout, sections: seq<EncSection>, i: nat)
    requires i < |sections|
    ensures ME12LE.SectionsBytes(L, LiftSections(sections[..i + 1]))
            == ME12LE.SectionsBytes(L, LiftSections(sections[..i])) + ME12LE.SectionBytes(L, LiftSection(sections[i]))
  {
    assert sections[..i + 1][..i] == sections[..i];
    assert LiftSections(sections[..i + 1])[..i] == LiftSections(sections[..i]);
  }

  lemma FilesBytesStep(L: ME12LE.Layout, files: seq<EncFile>, i: nat)
    requires i < |files|
    ensures ME12LE.FilesBytes(L, Lift(files[..i + 1]))
            == ME12LE.FilesBytes(L, Lift(files[..i])) + ME12LE.FileBytes(L, LiftFile(files[i]))
  {
    assert files[..i + 1][..i] == files[..i];
    assert Lift(files[..i + 1])[..i] == Lift(files[..i]);
  }
}
