/** What ME2 Load gives back for the archive Save writes: every field split
    into one single-valued field per value. The content text is written
    without escaping, so the round trip holds for names and values the
    INI reader cannot mistake: ASCII without NUL or line breaks, section
    names not empty, field names that start a field line and hold no '='. */
module ME2RoundTrip {
  import opened Wrappers
  import opened Primitives
  import opened ByteCodec
  import opened StringCodec
  import opened Ini
  import opened Document
  import opened ME2

  // ---------------------------------------------------------------------
  // What Save can write and Load read back.

  /** Chars 1..127 and no line break: what passes the content text's
      re-encodings unchanged and stays on its line. */
  predicate PlainText(s: Str)
  {
    NoLineBreak(s) && Ascii(s)
  }

  predicate Ascii(s: Str)
  {
    forall i :: 0 <= i < |s| ==> 0 < s[i] < 0x80
  }

  predicate ValuesStorable(values: seq<Str>)
  {
    values == [] || (ValuesStorable(values[..|values| - 1]) && PlainText(values[|values| - 1]))
  }

  /** A name the reader takes back whole: no '=', and a first char that
      makes its line a field line. */
  predicate FieldName(name: Str)
  {
    PlainText(name) && PlainKey(name) && EqualsSign !in name
  }

  predicate FieldStorable(field: CoalField)
  {
    FieldName(field.name) && ValuesStorable(field.values)
  }

  predicate FieldsStorable(fields: seq<CoalField>)
  {
    fields == [] || (FieldsStorable(fields[..|fields| - 1]) && FieldStorable(fields[|fields| - 1]))
  }

  predicate SectionStorable(section: CoalSection)
  {
    PlainText(section.name) && section.name != [] && FieldsStorable(section.fields)
  }

  predicate SectionsStorable(sections: seq<CoalSection>)
  {
    sections == [] || (SectionsStorable(sections[..|sections| - 1]) && SectionStorable(sections[|sections| - 1]))
  }

  /** The name fits the ME2 string layout and the content text the int
      prefix. */
  predicate FileStorable(file: CoalFile)
  {
    NarrowNoNul(file.fileName) && |file.fileName| < 0x7FFF_FFFF &&
    SectionsStorable(file.sections) && |ContentText(file.sections)| < 0x7FFF_FFFF
  }

  predicate FilesStorable(files: seq<CoalFile>)
  {
    files == [] || (FilesStorable(files[..|files| - 1]) && FileStorable(files[|files| - 1]))
  }

  /** A file as Load rebuilds it. */
  function SplitFile(file: CoalFile): CoalFile
  {
    CoalFile(file.fileName, SplitSections(file.sections))
  }

  function SplitFiles(files: seq<CoalFile>): seq<CoalFile>
  {
    if files == [] then [] else SplitFiles(files[..|files| - 1]) + [SplitFile(files[|files| - 1])]
  }

  // ---------------------------------------------------------------------
  // Single lines read back.

  /** A header line reads back as a section named by its bracketed text. */
  lemma HeaderReads(name: Str, lineNumber: nat)
    requires name != [] && LF !in name
    ensures Classify(HeaderLine(name), lineNumber, false, false)
      == Ok(Some(IniReadResult(Section, Some(name), None, lineNumber)))
  {
    BracketedMatch(name);
    assert HeaderLine(name)[0] == OpenBracket;
  }

  /** A value line reads back as its name and value. */
  lemma PairReads(name: Str, value: Str, lineNumber: nat)
    requires PlainKey(name) && EqualsSign !in name
    ensures Classify(PairLine(name, value), lineNumber, false, false)
      == Ok(Some(IniReadResult(Field, Some(name), Some(value), lineNumber)))
  {
    var line := PairLine(name, value);
    assert line[0] == name[0];
    PlainLine(line);
    IndexOfAfter(name, EqualsSign, value);
    assert line[..|name|] == name && line[|name| + 1..] == value;
  }

  /** The fields of the last section, extended. */
  function AddFields(sections: seq<CoalSection>, fields: seq<CoalField>): (r: seq<CoalSection>)
    requires sections != []
    ensures r != []
  {
    var s := sections[|sections| - 1];
    sections[..|sections| - 1] + [CoalSection(s.name, s.fields + fields)]
  }

  lemma AddNothing(sections: seq<CoalSection>)
    requires sections != []
    ensures AddFields(sections, []) == sections
  {
    var s := sections[|sections| - 1];
    assert s.fields + [] == s.fields;
    assert sections[..|sections| - 1] + [s] == sections;
  }

  lemma AddFieldsTwice(sections: seq<CoalSection>, a: seq<CoalField>, b: seq<CoalField>)
    requires sections != []
    ensures AddFields(AddFields(sections, a), b) == AddFields(sections, a + b)
  {
    var r, s := AddFields(sections, a), sections[|sections| - 1];
    assert r[..|r| - 1] == sections[..|sections| - 1];
    assert r[|r| - 1] == CoalSection(s.name, s.fields + a);
    assert s.fields + a + b == s.fields + (a + b);
  }

  /** The reader loop takes a header line and opens its section. */
  lemma HeaderStep(lines: seq<Str>, j: nat, sections: seq<CoalSection>, name: Str)
    requires j < |lines| && lines[j] == HeaderLine(name) && name != [] && LF !in name
    ensures ParseContent(lines, j, sections) == ParseContent(lines, j + 1, sections + [CoalSection(name, [])])
  {
    HeaderReads(name, j + 1);
  }

  /** The reader loop takes a value line into the open section. */
  lemma PairStep(lines: seq<Str>, j: nat, sections: seq<CoalSection>, name: Str, value: Str)
    requires j < |lines| && lines[j] == PairLine(name, value) && sections != []
    requires PlainKey(name) && EqualsSign !in name
    ensures ParseContent(lines, j, sections)
      == ParseContent(lines, j + 1, AddFields(sections, [CoalField(name, [value])]))
  {
    PairReads(name, value, j + 1);
  }

  // ---------------------------------------------------------------------
  // The content as a run of entries: a header or a value line each.

  /** One line of the content text, as the reader sees it. */
  datatype Entry = Head(name: Str) | Pair(name: Str, value: Str)

  function Render(e: Entry): Str
  {
    match e
    case Head(name) => HeaderLine(name)
    case Pair(name, value) => PairLine(name, value)
  }

  function RenderAll(es: seq<Entry>): (r: seq<Str>)
    ensures |r| == |es|
  {
    if es == [] then [] else [Render(es[0])] + RenderAll(es[1..])
  }

  function ValueEntries(name: Str, values: seq<Str>): (r: seq<Entry>)
    ensures |r| == |values|
  {
    if values == [] then []
    else ValueEntries(name, values[..|values| - 1]) + [Pair(name, values[|values| - 1])]
  }

  function FieldsEntries(fields: seq<CoalField>): seq<Entry>
  {
    if fields == [] then []
    else FieldsEntries(fields[..|fields| - 1]) + ValueEntries(fields[|fields| - 1].name, fields[|fields| - 1].values)
  }

  function SectionsEntries(sections: seq<CoalSection>): seq<Entry>
  {
    if sections == [] then []
    else
      var last := sections[|sections| - 1];
      SectionsEntries(sections[..|sections| - 1]) + [Head(last.name)] + FieldsEntries(last.fields)
  }

  /** What the reader loop does with one entry: a header opens a section,
      a value line adds a single-valued field to the open one. */
  function Apply(acc: seq<CoalSection>, e: Entry): (r: seq<CoalSection>)
    ensures e.Head? ==> r != []
  {
    match e
    case Head(name) => acc + [CoalSection(name, [])]
    case Pair(name, value) => if acc == [] then acc else AddValue(acc, name, value)
  }

  function Replay(acc: seq<CoalSection>, es: seq<Entry>): seq<CoalSection>
    decreases |es|
  {
    if es == [] then acc else Replay(Apply(acc, es[0]), es[1..])
  }

  /** A header reads back with a non-empty name on one line, a value line
      with a name that starts a field line and holds no '='. */
  predicate EntryOk(e: Entry)
  {
    match e
    case Head(name) => name != [] && LF !in name
    case Pair(name, _) => PlainKey(name) && EqualsSign !in name
  }

  predicate EntriesOk(es: seq<Entry>)
  {
    forall i :: 0 <= i < |es| ==> EntryOk(es[i])
  }

  /** The lines from k on start with the entries' lines. */
  predicate Renders(lines: seq<Str>, k: nat, es: seq<Entry>)
    decreases |es|
  {
    es == [] || (k < |lines| && lines[k] == Render(es[0]) && Renders(lines, k + 1, es[1..]))
  }

  // ---------------------------------------------------------------------
  // Entries and lines.

  lemma {:induction false} RenderAllAppend(a: seq<Entry>, b: seq<Entry>)
    ensures RenderAll(a + b) == RenderAll(a) + RenderAll(b)
    decreases |a|
  {
    if a != [] {
      assert (a + b)[0] == a[0] && (a + b)[1..] == a[1..] + b;
      RenderAllAppend(a[1..], b);
    } else {
      assert a + b == b;
    }
  }

  lemma {:induction false} ValueEntriesRender(name: Str, values: seq<Str>)
    ensures RenderAll(ValueEntries(name, values)) == ValueLines(name, values)
    decreases |values|
  {
    if values != [] {
      var init := values[..|values| - 1];
      ValueEntriesRender(name, init);
      RenderAllAppend(ValueEntries(name, init), [Pair(name, values[|values| - 1])]);
    }
  }

  lemma {:induction false} FieldsEntriesRender(fields: seq<CoalField>)
    ensures RenderAll(FieldsEntries(fields)) == FieldsLines(fields)
    decreases |fields|
  {
    if fields != [] {
      var init, last := fields[..|fields| - 1], fields[|fields| - 1];
      FieldsEntriesRender(init);
      ValueEntriesRender(last.name, last.values);
      RenderAllAppend(FieldsEntries(init), ValueEntries(last.name, last.values));
    }
  }

  lemma {:induction false} SectionsEntriesRender(sections: seq<CoalSection>)
    ensures RenderAll(SectionsEntries(sections)) == SectionsLines(sections)
    decreases |sections|
  {
    if sections != [] {
      var init, last := sections[..|sections| - 1], sections[|sections| - 1];
      var a, f := SectionsEntries(init), FieldsEntries(last.fields);
      SectionsEntriesRender(init);
      FieldsEntriesRender(last.fields);
      RenderAllAppend(a + [Head(last.name)], f);
      RenderAllAppend(a, [Head(last.name)]);
      assert RenderAll([Head(last.name)]) == [HeaderLine(last.name)];
    }
  }

  lemma {:induction false} RendersAfter(pre: seq<Str>, es: seq<Entry>)
    ensures Renders(pre + RenderAll(es), |pre|, es)
    decreases |es|
  {
    if es != [] {
      var pre' := pre + [Render(es[0])];
      assert pre' + RenderAll(es[1..]) == pre + RenderAll(es);
      RendersAfter(pre', es[1..]);
    }
  }

  // ---------------------------------------------------------------------
  // Entries and the document.

  lemma {:induction false} ReplayAppend(acc: seq<CoalSection>, a: seq<Entry>, b: seq<Entry>)
    ensures Replay(acc, a + b) == Replay(Replay(acc, a), b)
    decreases |a|
  {
    if a != [] {
      assert (a + b)[1..] == a[1..] + b;
      ReplayAppend(Apply(acc, a[0]), a[1..], b);
    } else {
      assert a + b == b;
    }
  }

  lemma ReplayOne(acc: seq<CoalSection>, e: Entry)
    ensures Replay(acc, [e]) == Apply(acc, e)
  {
    assert [e][1..] == [];
  }

  lemma {:induction false} ReplayValues(acc: seq<CoalSection>, name: Str, values: seq<Str>)
    requires acc != []
    ensures Replay(acc, ValueEntries(name, values)) == AddFields(acc, Singles(name, values))
    decreases |values|
  {
    if values == [] {
      AddNothing(acc);
    } else {
      var init, last := values[..|values| - 1], values[|values| - 1];
      ReplayValues(acc, name, init);
      ReplayAppend(acc, ValueEntries(name, init), [Pair(name, last)]);
      ReplayOne(AddFields(acc, Singles(name, init)), Pair(name, last));
      AddFieldsTwice(acc, Singles(name, init), [CoalField(name, [last])]);
    }
  }

  lemma {:induction false} ReplayFields(acc: seq<CoalSection>, fields: seq<CoalField>)
    requires acc != []
    ensures Replay(acc, FieldsEntries(fields)) == AddFields(acc, SplitFields(fields))
    decreases |fields|
  {
    if fields == [] {
      AddNothing(acc);
    } else {
      var init, last := fields[..|fields| - 1], fields[|fields| - 1];
      ReplayFields(acc, init);
      ReplayAppend(acc, FieldsEntries(init), ValueEntries(last.name, last.values));
      ReplayValues(AddFields(acc, SplitFields(init)), last.name, last.values);
      AddFieldsTwice(acc, SplitFields(init), Singles(last.name, last.values));
    }
  }

  lemma {:induction false} ReplaySections(acc: seq<CoalSection>, sections: seq<CoalSection>)
    ensures Replay(acc, SectionsEntries(sections)) == acc + SplitSections(sections)
    decreases |sections|
  {
    if sections == [] {
      assert acc + [] == acc;
    } else {
      ReplaySections(acc, sections[..|sections| - 1]);
      ReplayLastSection(acc, sections);
    }
  }

  /** Replaying the last section's entries after the others adds it. */
  lemma ReplayLastSection(acc: seq<CoalSection>, sections: seq<CoalSection>)
    requires sections != []
    requires Replay(acc, SectionsEntries(sections[..|sections| - 1])) == acc + SplitSections(sections[..|sections| - 1])
    ensures Replay(acc, SectionsEntries(sections)) == acc + SplitSections(sections)
  {
    var init, last := sections[..|sections| - 1], sections[|sections| - 1];
    var a, started := SectionsEntries(init), acc + SplitSections(init) + [CoalSection(last.name, [])];
    ReplayAppend(acc, a + [Head(last.name)], FieldsEntries(last.fields));
    ReplayAppend(acc, a, [Head(last.name)]);
    ReplayOne(acc + SplitSections(init), Head(last.name));
    ReplayFields(started, last.fields);
    assert started[..|started| - 1] == acc + SplitSections(init);
    assert [] + SplitFields(last.fields) == SplitFields(last.fields);
    assert AddFields(started, SplitFields(last.fields)) == acc + SplitSections(init) + [SplitSection(last)];
  }

  lemma EntriesOkAppend(a: seq<Entry>, b: seq<Entry>)
    requires EntriesOk(a) && EntriesOk(b)
    ensures EntriesOk(a + b)
  {
    assert forall i :: |a| <= i < |a + b| ==> (a + b)[i] == b[i - |a|];
  }

  lemma {:induction false} ValueEntriesOk(name: Str, values: seq<Str>)
    requires PlainKey(name) && EqualsSign !in name
    ensures EntriesOk(ValueEntries(name, values))
    decreases |values|
  {
    if values != [] {
      ValueEntriesOk(name, values[..|values| - 1]);
      EntriesOkAppend(ValueEntries(name, values[..|values| - 1]), [Pair(name, values[|values| - 1])]);
    }
  }

  lemma {:induction false} FieldsEntriesOk(fields: seq<CoalField>)
    requires FieldsStorable(fields)
    ensures EntriesOk(FieldsEntries(fields))
    decreases |fields|
  {
    if fields != [] {
      var init, last := fields[..|fields| - 1], fields[|fields| - 1];
      FieldsEntriesOk(init);
      ValueEntriesOk(last.name, last.values);
      EntriesOkAppend(FieldsEntries(init), ValueEntries(last.name, last.values));
    }
  }

  /** The entries of storable sections are all readable, and the first
      opens a section. */
  lemma {:induction false} SectionsEntriesOk(sections: seq<CoalSection>)
    requires SectionsStorable(sections)
    ensures EntriesOk(SectionsEntries(sections))
    ensures sections != [] ==> SectionsEntries(sections)[0].Head?
    decreases |sections|
  {
    if sections != [] {
      var init, last := sections[..|sections| - 1], sections[|sections| - 1];
      var a := SectionsEntries(init);
      SectionsEntriesOk(init);
      FieldsEntriesOk(last.fields);
      EntriesOkAppend(a, [Head(last.name)]);
      EntriesOkAppend(a + [Head(last.name)], FieldsEntries(last.fields));
      if init == [] {
        assert a == [];
      }
    }
  }

  // ---------------------------------------------------------------------
  // The reader loop over entries.

  /** The reader loop takes one readable entry's line. */
  lemma EntryStep(lines: seq<Str>, k: nat, acc: seq<CoalSection>, e: Entry)
    requires k < |lines| && lines[k] == Render(e) && EntryOk(e) && (acc != [] || e.Head?)
    ensures ParseContent(lines, k, acc) == ParseContent(lines, k + 1, Apply(acc, e))
  {
    match e
    case Head(name) => HeaderReads(name, k + 1);
    case Pair(name, value) => PairReads(name, value, k + 1);
  }

  /** The reader loop takes each entry of a run in one step. */
  ghost predicate Steps(lines: seq<Str>, k: nat, acc: seq<CoalSection>, es: seq<Entry>)
    decreases |es|
  {
    es == [] ||
    (k < |lines| && ParseContent(lines, k, acc) == ParseContent(lines, k + 1, Apply(acc, es[0])) &&
     Steps(lines, k + 1, Apply(acc, es[0]), es[1..]))
  }

  lemma {:induction false} EntriesSteps(lines: seq<Str>, k: nat, acc: seq<CoalSection>, es: seq<Entry>)
    requires Renders(lines, k, es) && EntriesOk(es) && (acc != [] || es == [] || es[0].Head?)
    ensures Steps(lines, k, acc, es)
    decreases |es|
  {
    if es != [] {
      EntryStep(lines, k, acc, es[0]);
      EntriesSteps(lines, k + 1, Apply(acc, es[0]), es[1..]);
    }
  }

  /** The reader loop over a run of entries it takes step by step replays
      them. */
  lemma {:induction false} StepsReplay(lines: seq<Str>, k: nat, acc: seq<CoalSection>, es: seq<Entry>,
                                       last: nat, result: seq<CoalSection>)
    requires k <= |lines| && Steps(lines, k, acc, es)
    requires last == k + |es| && result == Replay(acc, es)
    ensures last <= |lines|
    ensures ParseContent(lines, k, acc) == ParseContent(lines, last, result)
    decreases |es|
  {
    if es != [] {
      StepsReplay(lines, k + 1, Apply(acc, es[0]), es[1..], last, result);
    }
  }

  // ---------------------------------------------------------------------
  // The content text.

  predicate AllPlain(lines: seq<Str>)
  {
    forall i :: 0 <= i < |lines| ==> PlainText(lines[i])
  }

  lemma AsciiJoin(a: Str, b: Str)
    requires Ascii(a) && Ascii(b)
    ensures Ascii(a + b)
  {
    assert forall i :: |a| <= i < |a + b| ==> (a + b)[i] == b[i - |a|];
  }

  lemma PlainJoin(a: Str, b: Str)
    requires PlainText(a) && PlainText(b)
    ensures PlainText(a + b)
  {
    AsciiJoin(a, b);
  }

  lemma PlainLines(name: Str, value: Str)
    requires PlainText(name) && PlainText(value)
    ensures PlainText(HeaderLine(name)) && PlainText(PairLine(name, value))
  {
    PlainJoin([OpenBracket], name);
    PlainJoin([OpenBracket] + name, [CloseBracket]);
    PlainJoin(name, [EqualsSign]);
    PlainJoin(name + [EqualsSign], value);
  }

  lemma {:induction false} ValueLinesPlain(name: Str, values: seq<Str>)
    requires PlainText(name) && ValuesStorable(values)
    ensures AllPlain(ValueLines(name, values))
    decreases |values|
  {
    if values != [] {
      ValueLinesPlain(name, values[..|values| - 1]);
      PlainLines(name, values[|values| - 1]);
    }
  }

  lemma {:induction false} FieldsLinesPlain(fields: seq<CoalField>)
    requires FieldsStorable(fields)
    ensures AllPlain(FieldsLines(fields))
    decreases |fields|
  {
    if fields != [] {
      var last := fields[|fields| - 1];
      FieldsLinesPlain(fields[..|fields| - 1]);
      ValueLinesPlain(last.name, last.values);
    }
  }

  lemma {:induction false} SectionsLinesPlain(sections: seq<CoalSection>)
    requires SectionsStorable(sections)
    ensures AllPlain(SectionsLines(sections))
    decreases |sections|
  {
    if sections != [] {
      var last := sections[|sections| - 1];
      SectionsLinesPlain(sections[..|sections| - 1]);
      FieldsLinesPlain(last.fields);
      PlainLines(last.name, []);
    }
  }

  /** The content text of storable sections reads back as those sections,
      each field split. */
  lemma ContentReadsBack(sections: seq<CoalSection>)
    requires SectionsStorable(sections)
    ensures ReadContent(ContentText(sections)) == Ok(SplitSections(sections))
  {
    var lines, es := SectionsLines(sections), SectionsEntries(sections);
    SectionsLinesPlain(sections);
    LinesOfJoin(lines);
    SectionsEntriesRender(sections);
    RendersAfter([], es);
    assert [] + lines == lines;
    SectionsEntriesOk(sections);
    EntriesSteps(lines, 0, [], es);
    ReplaySections([], sections);
    assert [] + SplitSections(sections) == SplitSections(sections);
    StepsReplay(lines, 0, [], es, |lines|, SplitSections(sections));
  }

  /** A header with an empty name is read as a field line without '=', so
      an unnamed section does not survive the round trip. */
  lemma EmptySectionNameRefused()
    ensures ReadContent(ContentText([CoalSection([], [])])) == Err(IniInvalidKeyName(1))
  {
    var line := HeaderLine([]);
    assert SectionsLines([CoalSection([], [])]) == [line];
    assert JoinLines([line]) == line + [LF];
    LinesOfJoin([line]);
    assert !Skipped(line) by {
      assert line[0] == OpenBracket;
    }
    assert TrimEnd(line) == line;
  }

  /** A value line before any header is refused with its line number. */
  lemma FieldBeforeSection(name: Str, value: Str)
    requires PlainKey(name) && EqualsSign !in name
    ensures ParseContent([PairLine(name, value)], 0, []) == Err(IniNoCurrentSection(1))
  {
    PairReads(name, value, 1);
  }

  // ---------------------------------------------------------------------
  // The archive.

  /** The content string: the prefix |bytes| + 1 also covers the empty
      content, which EncodeME2 would write as a zero prefix. */
  lemma FramedReads(d: seq<byte>, q: nat, text: Str)
    requires NarrowNoNul(text) && |text| < 0x7FFF_FFFF && Stored(d, q, Framed(LowBytes(text)))
    ensures ReadME2At(d, q) == Ok((text, q + |Framed(LowBytes(text))|))
  {
    if text == [] {
      var f := Framed(LowBytes(text));
      StoredSlice(d, q, f);
      assert f == Int32Bytes(1) + [0];
      assert d[q..q + 4] == f[..4];
      ReadInt32Of(d, q, 1);
      assert d[q + 4] == f[4];
    } else {
      assert Framed(LowBytes(text)) == EncodeME2(text);
      ME2At(d, q, text);
    }
  }

  /** Plain lines joined make a plain text. */
  lemma {:induction false} JoinPlain(lines: seq<Str>)
    requires AllPlain(lines)
    ensures Ascii(JoinLines(lines))
  {
    if lines != [] {
      JoinPlain(lines[1..]);
      assert PlainText(lines[0]);
      AsciiJoin(lines[0], [LF]);
      AsciiJoin(lines[0] + [LF], JoinLines(lines[1..]));
    }
  }

  /** The content text is ASCII, so its bytes are its chars. */
  lemma ContentAscii(sections: seq<CoalSection>)
    requires SectionsStorable(sections)
    ensures NarrowNoNul(ContentText(sections))
  {
    SectionsLinesPlain(sections);
    JoinPlain(SectionsLines(sections));
  }

  /** The file loop takes a name, a content and the content's sections. */
  lemma FileRead(d: seq<byte>, p: nat, q: nat, r: nat, acc: seq<CoalFile>, text: Str, file: CoalFile)
    requires p < |d| && ReadME2At(d, p) == Ok((file.fileName, q)) && ReadME2At(d, q) == Ok((text, r))
    requires ReadContent(text) == Ok(file.sections)
    ensures ReadFiles(d, p, acc) == ReadFiles(d, r, acc + [file])
  {
  }

  /** A stored file's name and content strings read back. */
  lemma FileStrings(d: seq<byte>, p: nat, q: nat, r: nat, file: CoalFile)
    requires FileStorable(file) && Stored(d, p, FileBytes(file))
    requires q == p + |EncodeME2(file.fileName)| && r == q + |Framed(LowBytes(ContentText(file.sections)))|
    ensures p < |d| && ReadME2At(d, p) == Ok((file.fileName, q))
    ensures ReadME2At(d, q) == Ok((ContentText(file.sections), r))
  {
    var text := ContentText(file.sections);
    var a, b := EncodeME2(file.fileName), Framed(LowBytes(text));
    StoredSplit(d, p, a, b);
    StoredSlice(d, p, a);
    ME2At(d, p, file.fileName);
    ContentAscii(file.sections);
    FramedReads(d, p + |a|, text);
  }

  /** One file's bytes read back as the file with its fields split. The
      position and the list after it are parameters, so that the caller's
      terms match the ones stated here. */
  lemma FileStep(d: seq<byte>, p: nat, acc: seq<CoalFile>, file: CoalFile, next: nat, after: seq<CoalFile>)
    requires FileStorable(file) && Stored(d, p, FileBytes(file))
    requires next == p + |FileBytes(file)| && after == acc + [SplitFile(file)]
    ensures ReadFiles(d, p, acc) == ReadFiles(d, next, after)
  {
    var text := ContentText(file.sections);
    var q := p + |EncodeME2(file.fileName)|;
    FileStrings(d, p, q, next, file);
    ContentReadsBack(file.sections);
    FileRead(d, p, q, next, acc, text, SplitFile(file));
  }

  /** A loop over the stored items of d takes back out(x) for every item
      x that passes ok, wherever its bytes enc(x) sit. */
  ghost predicate Advances<T(!new), U(!new), R>(loop: (nat, seq<U>) -> R, d: seq<byte>, enc: T -> seq<byte>,
                                              ok: T -> bool, out: T -> U)
  {
    forall x: T, p: nat, acc: seq<U> {:trigger Stored(d, p, enc(x)), loop(p, acc)} ::
      ok(x) && Stored(d, p, enc(x)) ==> loop(p, acc) == loop(p + |enc(x)|, acc + [out(x)])
  }

  /** Such a loop over items stored one after another; nothing here looks
      inside an item or the loop. */
  lemma {:induction false} AdvancesAll<T(!new), U(!new), R>(loop: (nat, seq<U>) -> R, d: seq<byte>,
                                                           enc: T -> seq<byte>, ok: T -> bool, out: T -> U,
                                                           p: nat, acc: seq<U>, xs: seq<T>, next: nat, after: seq<U>)
    requires Advances(loop, d, enc, ok, out) && AllOk(ok, xs) && Stored(d, p, Concat(enc, xs))
    requires next == p + |Concat(enc, xs)| && after == acc + MapSeq(out, xs)
    ensures loop(p, acc) == loop(next, after)
    decreases |xs|
  {
    if xs == [] {
      assert after == acc;
    } else {
      var init, last := xs[..|xs| - 1], xs[|xs| - 1];
      var mid, between := p + |Concat(enc, init)|, acc + MapSeq(out, init);
      StoredSplit(d, p, Concat(enc, init), enc(last));
      AdvancesAll(loop, d, enc, ok, out, p, acc, init, mid, between);
      assert loop(mid, between) == loop(mid + |enc(last)|, between + [out(last)]);
      assert after == between + [out(last)];
    }
  }

  function FileLoop(d: seq<byte>): (nat, seq<CoalFile>) -> Result<seq<CoalFile>>
  {
    (p: nat, acc: seq<CoalFile>) => ReadFiles(d, p, acc)
  }

  function FileEncoder(): CoalFile -> seq<byte>
  {
    file => FileBytes(file)
  }

  function FileChecker(): CoalFile -> bool
  {
    file => FileStorable(file)
  }

  lemma FileLoopStep(d: seq<byte>, p: nat, acc: seq<CoalFile>, file: CoalFile)
    requires FileChecker()(file) && Stored(d, p, FileEncoder()(file))
    ensures FileLoop(d)(p, acc) == FileLoop(d)(p + |FileEncoder()(file)|, acc + [SplitFile(file)])
  {
    FileStep(d, p, acc, file, p + |FileBytes(file)|, acc + [SplitFile(file)]);
  }

  lemma FileReadsBack(d: seq<byte>)
    ensures Advances(FileLoop(d), d, FileEncoder(), FileChecker(), SplitFile)
  {
    forall file, p: nat, acc | FileChecker()(file) && Stored(d, p, FileEncoder()(file))
      ensures FileLoop(d)(p, acc) == FileLoop(d)(p + |FileEncoder()(file)|, acc + [SplitFile(file)])
    {
      FileLoopStep(d, p, acc, file);
    }
  }

  /** The generic list functions over the file helpers are the archive's
      own. */
  lemma {:induction false} FilesAsList(files: seq<CoalFile>)
    ensures Concat(FileEncoder(), files) == FilesBytes(files)
    ensures MapSeq(SplitFile, files) == SplitFiles(files)
    ensures AllOk(FileChecker(), files) == FilesStorable(files)
    decreases |files|
  {
    if files != [] {
      FilesAsList(files[..|files| - 1]);
    }
  }

  /** Loading what Save writes gives the document back with each field
      split into single-valued fields, whatever the signature. */
  lemma SaveLoadRoundTrip(signature: int32, files: seq<CoalFile>)
    requires FilesStorable(files)
    ensures LoadBytes(SaveBytes(signature, files)) == Ok(SplitFiles(files))
  {
    var d := SaveBytes(signature, files);
    SavedLayout(signature, files);
    FileReadsBack(d);
    FilesAsList(files);
    AdvancesAll(FileLoop(d), d, FileEncoder(), FileChecker(), SplitFile, 4, [], files, |d|, SplitFiles(files));
    LoadFrom(d, signature, Ok(SplitFiles(files)));
  }

  /** The signature, then the files up to the end. */
  lemma SavedLayout(signature: int32, files: seq<CoalFile>)
    ensures var d := SaveBytes(signature, files);
      ReadInt32At(d, 0) == Ok((signature, 4)) && Stored(d, 4, FilesBytes(files)) &&
      |d| == 4 + |FilesBytes(files)|
  {
    var h, b := Int32Bytes(signature), FilesBytes(files);
    var d := SaveBytes(signature, files);
    assert d == h + b;
    ReadInt32Written([], signature, b);
    assert [] + h + b == d;
    StoredWhole(h, b, []);
    assert h + b + [] == d;
  }

  lemma LoadFrom(d: seq<byte>, signature: int32, r: Result<seq<CoalFile>>)
    requires ReadInt32At(d, 0) == Ok((signature, 4)) && ReadFiles(d, 4, []) == r
    ensures LoadBytes(d) == r
  {
  }
}
