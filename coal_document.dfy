/** CoalDocument: the Files -> Sections -> Fields -> Values tree of a
    configuration archive, its INI text (Save) and the loader that reads
    that text back, coalescing repeated names (Load). */
module Document {
  import opened Wrappers
  import opened Primitives
  import opened Formats
  import opened Ini

  /** `CoalField`: a name and its values, in order. */
  datatype CoalField = CoalField(name: Str, values: seq<Str>)

  /** `CoalSection`: a name and its fields, in order. */
  datatype CoalSection = CoalSection(name: Str, fields: seq<CoalField>)
  {
    /** `ValueCount`: the number of values over all its fields. */
    function ValueCount(): nat
    {
      Values(fields)
    }
  }

  /** `CoalFile`: a file name and its sections, in order. */
  datatype CoalFile = CoalFile(fileName: Str, sections: seq<CoalSection>)

  function Values(fields: seq<CoalField>): nat
  {
    if fields == [] then 0 else Values(fields[..|fields| - 1]) + |fields[|fields| - 1].values|
  }

  // ---------------------------------------------------------------------
  // Save: what the document asks of the INI writer.

  /** One writer call: WriteSection(fileName, sectionName) or
      WriteField(name, value). */
  datatype Event = Header(fileName: Str, sectionName: Str) | Value(name: Str, value: Str)

  /** A field's calls: its name with each of its values, in order. */
  function FieldEvents(field: CoalField): (r: seq<Event>)
    ensures |r| == |field.values|
    ensures forall e :: e in r ==> e.Value? && e.name == field.name
    decreases |field.values|
  {
    if field.values == [] then []
    else FieldEvents(CoalField(field.name, field.values[..|field.values| - 1])) + [Value(field.name, field.values[|field.values| - 1])]
  }

  /** The calls for a section's fields, one per value. */
  function FieldsEvents(fields: seq<CoalField>): (r: seq<Event>)
  {
    if fields == [] then [] else FieldsEvents(fields[..|fields| - 1]) + FieldEvents(fields[|fields| - 1])
  }

  /** A section's calls: its header, then its fields. */
  function SectionEvents(fileName: Str, section: CoalSection): seq<Event>
  {
    [Header(fileName, section.name)] + FieldsEvents(section.fields)
  }

  /** A file's calls: those of its sections, in order. */
  function FileEvents(fileName: Str, sections: seq<CoalSection>): seq<Event>
  {
    if sections == [] then []
    else FileEvents(fileName, sections[..|sections| - 1]) + SectionEvents(fileName, sections[|sections| - 1])
  }

  /** Save's calls for the whole document. */
  function Events(files: seq<CoalFile>): seq<Event>
  {
    if files == [] then []
    else Events(files[..|files| - 1]) + FileEvents(files[|files| - 1].fileName, files[|files| - 1].sections)
  }

  /** The number of field lines a section gives is its ValueCount. */
  lemma {:induction false} FieldsEventsCount(fields: seq<CoalField>)
    ensures |FieldsEvents(fields)| == CoalSection([], fields).ValueCount()
    ensures forall e :: e in FieldsEvents(fields) ==> e.Value?
    decreases |fields|
  {
    if fields != [] {
      FieldsEventsCount(fields[..|fields| - 1]);
    }
  }

  /** The lines one call adds: a header is preceded by a blank line when a
      field was written since the last header. */
  function EventLines(e: Event, fieldsWritten: bool): seq<Str>
  {
    match e
    case Header(fileName, sectionName) => (if fieldsWritten then [[]] else []) + [SectionLine(fileName, sectionName)]
    case Value(name, value) => [FieldLine(name, value)]
  }

  /** The lines a run of calls adds, starting from the writer's flag. */
  function EventsText(events: seq<Event>, fieldsWritten: bool): seq<Str>
    decreases |events|
  {
    if events == [] then [] else EventLines(events[0], fieldsWritten) + EventsText(events[1..], events[0].Value?)
  }

  /** The writer's flag after a run of calls: set by the last call when it
      wrote a field, cleared when it wrote a header. */
  function WrittenAfter(events: seq<Event>, fieldsWritten: bool): bool
  {
    if events == [] then fieldsWritten else events[|events| - 1].Value?
  }

  /** Writing two runs of calls one after the other. */
  lemma {:induction false} EventsTextAppend(a: seq<Event>, b: seq<Event>, fieldsWritten: bool)
    ensures EventsText(a + b, fieldsWritten) == EventsText(a, fieldsWritten) + EventsText(b, WrittenAfter(a, fieldsWritten))
    decreases |a|
  {
    if a != [] {
      EventsTextAppend(a[1..], b, a[0].Value?);
      EventsTextCons(a, b, fieldsWritten);
    } else {
      assert a + b == b;
    }
  }

  lemma {:induction false} EventsTextCons(a: seq<Event>, b: seq<Event>, fieldsWritten: bool)
    requires a != []
    requires EventsText(a[1..] + b, a[0].Value?) == EventsText(a[1..], a[0].Value?) + EventsText(b, WrittenAfter(a[1..], a[0].Value?))
    ensures EventsText(a + b, fieldsWritten) == EventsText(a, fieldsWritten) + EventsText(b, WrittenAfter(a, fieldsWritten))
  {
    var h, x, y := EventLines(a[0], fieldsWritten), EventsText(a[1..], a[0].Value?), EventsText(b, WrittenAfter(a, fieldsWritten));
    WrittenAfterTail(a, fieldsWritten);
    ConsSplit(a, b);
    assert EventsText(a + b, fieldsWritten) == h + (x + y);
    assert EventsText(a, fieldsWritten) == h + x;
    Associative(h, x, y);
  }

  lemma WrittenAfterTail(a: seq<Event>, fieldsWritten: bool)
    requires a != []
    ensures WrittenAfter(a[1..], a[0].Value?) == WrittenAfter(a, fieldsWritten)
  {
  }

  lemma ConsSplit<T>(a: seq<T>, b: seq<T>)
    requires a != []
    ensures (a + b)[0] == a[0] && (a + b)[1..] == a[1..] + b
  {
  }

  lemma Associative<T>(x: seq<T>, y: seq<T>, z: seq<T>)
    ensures x + (y + z) == (x + y) + z
  {
  }

  lemma WrittenAfterAppend(a: seq<Event>, b: seq<Event>, fieldsWritten: bool)
    ensures WrittenAfter(a + b, fieldsWritten) == WrittenAfter(b, WrittenAfter(a, fieldsWritten))
  {
  }

  /** A field's calls write one field line per value, and leave the flag
      set exactly when there was a value. */
  lemma {:induction false} FieldEventsText(field: CoalField, fieldsWritten: bool)
    ensures EventsText(FieldEvents(field), fieldsWritten) == FieldLines(field.name, field.values)
    ensures WrittenAfter(FieldEvents(field), fieldsWritten) == (fieldsWritten || |field.values| > 0)
    decreases |field.values|
  {
    if field.values != [] {
      var init := CoalField(field.name, field.values[..|field.values| - 1]);
      var last := Value(field.name, field.values[|field.values| - 1]);
      assert FieldEvents(field) == FieldEvents(init) + [last];
      FieldEventsText(init, fieldsWritten);
      EventsTextAppend(FieldEvents(init), [last], fieldsWritten);
      assert EventsText([last], fieldsWritten || |init.values| > 0) == [FieldLine(field.name, field.values[|field.values| - 1])] by {
        assert [last][1..] == [];
      }
    }
  }

  /** The writer has issued the calls done so far. */
  ghost predicate Wrote(ini: IniWriter, header: Str, done: seq<Event>)
    reads ini
  {
    ini.lines == [header] + EventsText(done, false) && ini.fieldsWritten == WrittenAfter(done, false)
  }

  /** Issuing the calls more after done: the lines they add follow the
      lines of done, and the flag is theirs. */
  lemma IssueText(header: Str, done: seq<Event>, more: seq<Event>, before: seq<Str>, flag: bool, lines: seq<Str>)
    requires before == [header] + EventsText(done, false) && flag == WrittenAfter(done, false)
    requires lines == before + EventsText(more, flag)
    ensures lines == [header] + EventsText(done + more, false)
  {
    EventsTextAppend(done, more, false);
  }

  lemma IssueFlag(done: seq<Event>, more: seq<Event>, flag: bool, fieldsWritten: bool)
    requires flag == WrittenAfter(done, false)
    requires fieldsWritten == WrittenAfter(more, flag)
    ensures fieldsWritten == WrittenAfter(done + more, false)
  {
    WrittenAfterAppend(done, more, false);
  }

  /** The calls for one field: its name with each of its values. */
  method SaveField(ini: IniWriter, field: CoalField, ghost header: Str, ghost done: seq<Event>)
    requires Wrote(ini, header, done)
    modifies ini
    ensures Wrote(ini, header, done + FieldEvents(field))
  {
    ghost var before, flag := ini.lines, ini.fieldsWritten;
    ini.WriteFields(field.name, field.values);
    FieldEventsText(field, flag);
    IssueText(header, done, FieldEvents(field), before, flag, ini.lines);
    IssueFlag(done, FieldEvents(field), flag, ini.fieldsWritten);
  }

  /** Taking one more element of a run of calls built by snoc. */
  lemma Extend(done: seq<Event>, sofar: seq<Event>, prefix: seq<Event>, more: seq<Event>, whole: seq<Event>)
    requires sofar == done + prefix && whole == prefix + more
    ensures sofar + more == done + whole
  {
  }

  /** The calls for a section's fields: each field's values, in order. */
  method SaveFields(ini: IniWriter, fields: seq<CoalField>, ghost header: Str, ghost done: seq<Event>)
    requires Wrote(ini, header, done)
    modifies ini
    ensures Wrote(ini, header, done + FieldsEvents(fields))
  {
    ghost var sofar := done;
    assert sofar == done + FieldsEvents(fields[..0]);
    var k := 0;
    while k < |fields|
      invariant 0 <= k <= |fields|
      invariant sofar == done + FieldsEvents(fields[..k])
      invariant Wrote(ini, header, sofar)
    {
      ghost var next := sofar + FieldEvents(fields[k]);
      assert next == done + FieldsEvents(fields[..k + 1]) by {
        assert fields[..k + 1][..k] == fields[..k];
        Extend(done, sofar, FieldsEvents(fields[..k]), FieldEvents(fields[k]), FieldsEvents(fields[..k + 1]));
      }
      SaveField(ini, fields[k], header, sofar);
      sofar := next;
      k := k + 1;
    }
    assert fields[..k] == fields;
  }

  /** The calls for one section: its header, then its fields. */
  method SaveSection(ini: IniWriter, fileName: Str, section: CoalSection, ghost header: Str, ghost done: seq<Event>)
    requires Wrote(ini, header, done)
    modifies ini
    ensures Wrote(ini, header, done + SectionEvents(fileName, section))
  {
    ghost var headed := done + [Header(fileName, section.name)];
    assert headed + FieldsEvents(section.fields) == done + SectionEvents(fileName, section);
    ghost var before, flag := ini.lines, ini.fieldsWritten;
    ini.WriteSection(fileName, section.name);
    assert Wrote(ini, header, headed) by {
      IssueText(header, done, [Header(fileName, section.name)], before, flag, ini.lines);
      IssueFlag(done, [Header(fileName, section.name)], flag, ini.fieldsWritten);
    }
    SaveFields(ini, section.fields, header, headed);
  }

  /** The calls for one file: those of each of its sections. */
  method SaveFile(ini: IniWriter, file: CoalFile, ghost header: Str, ghost done: seq<Event>)
    requires Wrote(ini, header, done)
    modifies ini
    ensures Wrote(ini, header, done + FileEvents(file.fileName, file.sections))
  {
    ghost var sofar := done;
    assert sofar == done + FileEvents(file.fileName, file.sections[..0]);
    var j := 0;
    while j < |file.sections|
      invariant 0 <= j <= |file.sections|
      invariant sofar == done + FileEvents(file.fileName, file.sections[..j])
      invariant Wrote(ini, header, sofar)
    {
      ghost var next := sofar + SectionEvents(file.fileName, file.sections[j]);
      assert next == done + FileEvents(file.fileName, file.sections[..j + 1]) by {
        assert file.sections[..j + 1][..j] == file.sections[..j];
        Extend(done, sofar, FileEvents(file.fileName, file.sections[..j]), SectionEvents(file.fileName, file.sections[j]),
          FileEvents(file.fileName, file.sections[..j + 1]));
      }
      SaveSection(ini, file.fileName, file.sections[j], header, sofar);
      sofar := next;
      j := j + 1;
    }
    assert file.sections[..j] == file.sections;
  }

  // ---------------------------------------------------------------------
  // Load: reading the INI text back.

  /** The loader's files and its three cursors. A cursor that is set always
      designates the last file, the last section of the last file, or the
      last field of that section, so each is modelled by whether it is set. */
  datatype Loading = Loading(files: seq<CoalFile>, file: bool, section: bool, field: bool)
  {
    ghost predicate Valid()
    {
      (file ==> files != []) &&
      (section ==> file && files[|files| - 1].sections != []) &&
      (field ==> section && LastSection(files).fields != [])
    }
  }

  const Start := Loading([], false, false, false)

  function LastSection(files: seq<CoalFile>): CoalSection
    requires files != [] && files[|files| - 1].sections != []
  {
    var f := files[|files| - 1];
    f.sections[|f.sections| - 1]
  }

  /** `file.Sections.Add(section)` on the last file. */
  function AddSection(files: seq<CoalFile>, section: CoalSection): (r: seq<CoalFile>)
    requires files != []
    ensures |r| == |files| && r[..|r| - 1] == files[..|files| - 1]
    ensures r[|r| - 1] == CoalFile(files[|files| - 1].fileName, files[|files| - 1].sections + [section])
  {
    var f := files[|files| - 1];
    files[..|files| - 1] + [CoalFile(f.fileName, f.sections + [section])]
  }

  /** Replacing the last section of the last file. */
  function SetLastSection(files: seq<CoalFile>, section: CoalSection): (r: seq<CoalFile>)
    requires files != [] && files[|files| - 1].sections != []
    ensures |r| == |files| && r[..|r| - 1] == files[..|files| - 1]
    ensures var f := files[|files| - 1];
      r[|r| - 1] == CoalFile(f.fileName, f.sections[..|f.sections| - 1] + [section])
  {
    var f := files[|files| - 1];
    files[..|files| - 1] + [CoalFile(f.fileName, f.sections[..|f.sections| - 1] + [section])]
  }

  /** `section.Fields.Add(field)` on the current section. */
  function AddField(files: seq<CoalField>, field: CoalField): seq<CoalField>
  {
    files + [field]
  }

  /** The loader's answer to a header naming fileName and sectionName: a new
      file unless the current one has that name, then (for a non-empty
      name) a new section unless the current one has that name. */
  function ApplySection(st: Loading, fileName: Str, sectionName: Str): (r: Loading)
    requires st.Valid()
    ensures r.Valid() && r.file && r.files[|r.files| - 1].fileName == fileName
    ensures sectionName != [] ==> r.section && LastSection(r.files).name == sectionName
    ensures sectionName == [] && st.file && st.files[|st.files| - 1].fileName == fileName ==> r == st
  {
    var st1 := if !st.file || st.files[|st.files| - 1].fileName != fileName
      then Loading(st.files + [CoalFile(fileName, [])], true, false, false)
      else st;
    if sectionName == [] then st1
    else if !st1.section || LastSection(st1.files).name != sectionName
    then Loading(AddSection(st1.files, CoalSection(sectionName, [])), true, true, false)
    else st1
  }

  /** The loader's answer to a field line under the current section: a new
      field unless the current one has that name, then the value appended
      to it. */
  function ApplyField(st: Loading, name: Str, value: Str): (r: Loading)
    requires st.Valid() && st.section
    ensures r.Valid() && r.section && r.field
    ensures var s := LastSection(r.files); s.fields[|s.fields| - 1].name == name
    ensures var s := LastSection(r.files); var f := s.fields[|s.fields| - 1]; f.values != [] && f.values[|f.values| - 1] == value
  {
    var s := LastSection(st.files);
    var fields := if !st.field || s.fields[|s.fields| - 1].name != name
      then AddField(s.fields, CoalField(name, []))
      else s.fields;
    var f := fields[|fields| - 1];
    var s' := CoalSection(s.name, fields[..|fields| - 1] + [CoalField(f.name, f.values + [value])]);
    Loading(SetLastSection(st.files, s'), true, true, true)
  }

  /** Load from line next on: each result the reader gives is applied in
      turn until it runs out of lines; a field with no section current is
      IniNoCurrentSection, and a reader error is passed on. */
  function LoadFrom(lines: seq<Str>, next: nat, st: Loading): Result<seq<CoalFile>>
    requires next <= |lines| && st.Valid()
    decreases |lines| - next, 1
  {
    LoadStep(lines, next, st, ReadFrom(lines, next, true, true))
  }

  /** One step of LoadFrom, given what the reader returns. */
  function LoadStep(lines: seq<Str>, next: nat, st: Loading, read: Result<(IniReadResult, nat)>): Result<seq<CoalFile>>
    requires next <= |lines| && st.Valid() && read == ReadFrom(lines, next, true, true)
    decreases |lines| - next, 0
  {
    if next == |lines| then Ok(st.files)
    else
      match read
      case Err(e) => Err(e)
      case Ok((result, after)) =>
        if result.kind == IniReadResultType.EndOfStream then Ok(st.files)
        else if result.kind == Section then LoadFrom(lines, after, ApplySection(st, result.value1.value, result.value2.value))
        else if !st.section then Err(IniNoCurrentSection(result.lineNumber))
        else LoadFrom(lines, after, ApplyField(st, result.value1.value, result.value2.value))
  }

  /** `CoalDocument`: its format and its files. */
  class CoalDocument {
    const format: CoalFormat
    var files: seq<CoalFile>

    constructor (format: CoalFormat)
      ensures this.format == format && files == []
    {
      this.format := format;
      files := [];
    }

    /** Save: the INI text, a header per section and a field line per value,
        in document order; header is the writer's first line. */
    method Save(header: Str) returns (text: seq<Str>)
      ensures text == [header] + EventsText(Events(files), false)
    {
      var ini := new IniWriter.Headed(header);
      var i := 0;
      while i < |files|
        invariant 0 <= i <= |files|
        invariant Wrote(ini, header, Events(files[..i]))
      {
        assert files[..i + 1][..i] == files[..i];
        SaveFile(ini, files[i], header, Events(files[..i]));
        i := i + 1;
      }
      assert files[..i] == files;
      text := ini.lines;
    }

    /** Load's handling of a header: the file, section and field cursors
        move as ApplySection says. */
    method OpenSection(fileName: Str, sectionName: Str, file: bool, section: bool, field: bool)
      returns (file': bool, section': bool, field': bool)
      requires Loading(files, file, section, field).Valid()
      modifies this
      ensures Loading(files, file', section', field') == ApplySection(Loading(old(files), file, section, field), fileName, sectionName)
    {
      file', section', field' := file, section, field;
      if !file || files[|files| - 1].fileName != fileName {
        files := files + [CoalFile(fileName, [])];
        file', section', field' := true, false, false;
      }
      if sectionName != [] {
        if !section' || LastSection(files).name != sectionName {
          files := AddSection(files, CoalSection(sectionName, []));
          section', field' := true, false;
        }
      }
    }

    /** Load's handling of a field line under the current section: a new
        field unless the current one has the name, then the value. */
    method AppendValue(name: Str, value: Str, field: bool) returns (field': bool)
      requires Loading(files, true, true, field).Valid()
      modifies this
      ensures Loading(files, true, true, field') == ApplyField(Loading(old(files), true, true, field), name, value)
    {
      var current := LastSection(files);
      var fields := current.fields;
      field' := field;
      if !field || fields[|fields| - 1].name != name {
        fields := AddField(fields, CoalField(name, []));
        field' := true;
      }
      var last := fields[|fields| - 1];
      fields := fields[..|fields| - 1] + [CoalField(last.name, last.values + [value])];
      files := SetLastSection(files, CoalSection(current.name, fields));
    }

    /** Load: the document the INI lines describe. The format comes from the
        text's first line, which the reader's constructor consumes; both
        are outside this model, so the format and the lines after the first
        come in as parameters. */
    static method Load(lines: seq<Str>, format: CoalFormat) returns (r: Result<CoalDocument>)
      ensures r.Ok? ==> fresh(r.value) && r.value.format == format
      ensures LoadFrom(lines, 0, Start) == if r.Ok? then Ok(r.value.files) else Err(r.error)
    {
      var ini := new IniReader(lines, true, true);
      var doc := new CoalDocument(format);
      var file, section, field := false, false, false;
      while ini.lineNumber < |ini.lines|
        invariant ini.Valid() && ini.lines == lines && ini.hasEmbeddedFileNames && ini.unescapeStrings
        invariant Loading(doc.files, file, section, field).Valid()
        invariant LoadFrom(lines, ini.lineNumber, Loading(doc.files, file, section, field)) == LoadFrom(lines, 0, Start)
        invariant fresh(doc) && doc.format == format
        decreases |lines| - ini.lineNumber
      {
        ghost var st := Loading(doc.files, file, section, field);
        ghost var spec := ReadFrom(lines, ini.lineNumber, true, true);
        assert LoadFrom(lines, ini.lineNumber, st) == LoadStep(lines, ini.lineNumber, st, spec);
        var read := ini.Read();
        if read.Err? {
          return Err(read.error);
        }
        var result := read.value;
        if result.kind == IniReadResultType.EndOfStream {
          break;
        }
        if result.kind == Section {
          file, section, field := doc.OpenSection(result.value1.value, result.value2.value, file, section, field);
        } else {
          if !section {
            return Err(IniNoCurrentSection(result.lineNumber));
          }
          field := doc.AppendValue(result.value1.value, result.value2.value, field);
        }
      }
      return Ok(doc);
    }
  }

  // ---------------------------------------------------------------------
  // The document a binary converter's Load rebuilds from what its Save
  // wrote: the binary layouts store one (name, value) pair per value.

  /** One single-valued field per value. */
  function Singles(name: Str, values: seq<Str>): seq<CoalField>
  {
    if values == [] then []
    else Singles(name, values[..|values| - 1]) + [CoalField(name, [values[|values| - 1]])]
  }

  function SplitFields(fields: seq<CoalField>): seq<CoalField>
  {
    if fields == [] then []
    else SplitFields(fields[..|fields| - 1]) + Singles(fields[|fields| - 1].name, fields[|fields| - 1].values)
  }

  function SplitSection(section: CoalSection): CoalSection
  {
    CoalSection(section.name, SplitFields(section.fields))
  }

  function SplitSections(sections: seq<CoalSection>): seq<CoalSection>
  {
    if sections == [] then []
    else SplitSections(sections[..|sections| - 1]) + [SplitSection(sections[|sections| - 1])]
  }
}
