/** What CoalDocument.Save writes, CoalDocument.Load reads back: for a
    document already in the form the loader builds (no repeated neighbour
    names, nothing empty that the text cannot carry), loading the saved
    lines gives the same files, sections, fields and values. */
module DocumentRoundTrip {
  import opened Wrappers
  import opened Primitives
  import opened Ini
  import opened Document

  // ---------------------------------------------------------------------
  // The loader driven by writer calls instead of lines.

  /** The loader's state after the calls events: None when a field comes
      with no current section. */
  function Replay(events: seq<Event>, st: Loading): (r: Option<Loading>)
    requires st.Valid()
    ensures r.Some? ==> r.value.Valid()
    decreases |events|
  {
    if events == [] then Some(st)
    else
      match events[0]
      case Header(fileName, sectionName) => Replay(events[1..], ApplySection(st, fileName, sectionName))
      case Value(name, value) => if st.section then Replay(events[1..], ApplyField(st, name, value)) else None
  }

  lemma {:induction false} ReplayAppend(a: seq<Event>, b: seq<Event>, st: Loading)
    requires st.Valid() && Replay(a, st).Some?
    ensures Replay(a + b, st) == Replay(b, Replay(a, st).value)
    decreases |a|
  {
    if a != [] {
      assert (a + b)[0] == a[0] && (a + b)[1..] == a[1..] + b;
      match a[0]
      case Header(fileName, sectionName) =>
        ReplayAppend(a[1..], b, ApplySection(st, fileName, sectionName));
      case Value(name, value) =>
        ReplayAppend(a[1..], b, ApplyField(st, name, value));
    } else {
      assert a + b == b;
    }
  }

  // ---------------------------------------------------------------------
  // Reading the written lines gives back the calls.

  /** Calls whose lines read back as themselves: every header names a file
      and every field name starts with a char the reader takes for a key. */
  predicate Readable(events: seq<Event>)
  {
    forall i :: 0 <= i < |events| ==> match events[i]
      case Header(fileName, _) => fileName != []
      case Value(name, _) => PlainKey(name)
  }

  lemma ReadableAppend(a: seq<Event>, b: seq<Event>)
    requires Readable(a) && Readable(b)
    ensures Readable(a + b)
  {
    forall i | 0 <= i < |a + b|
      ensures match (a + b)[i]
        case Header(fileName, _) => fileName != []
        case Value(name, _) => PlainKey(name)
    {
      if i >= |a| {
        assert (a + b)[i] == b[i - |a|];
      }
    }
  }

  /** A blank line is passed over. */
  lemma ReadBlank(lines: seq<Str>, n: nat)
    requires n < |lines| && lines[n] == []
    ensures ReadFrom(lines, n, true, true) == ReadFrom(lines, n + 1, true, true)
  {
    assert Skipped(lines[n]);
  }

  /** A line that classifies as a result is read as that result. */
  lemma ReadLine(lines: seq<Str>, n: nat, result: IniReadResult)
    requires n < |lines| && Classify(lines[n], n + 1, true, true) == Ok(Some(result))
    ensures ReadFrom(lines, n, true, true) == Ok((result, n + 1))
  {
  }

  lemma SliceAfter(lines: seq<Str>, n: nat, a: seq<Str>, b: seq<Str>)
    requires n <= |lines| && lines[n..] == a + b
    ensures n + |a| <= |lines| && lines[n + |a|..] == b
    ensures forall i :: 0 <= i < |a| ==> lines[n + i] == a[i]
  {
    assert forall i :: 0 <= i < |a| ==> lines[n..][i] == a[i];
    assert lines[n + |a|..] == lines[n..][|a|..];
  }

  /** A header's lines (after a blank line when a field came before it)
      are read as its file and section. */
  lemma ReadHeader(lines: seq<Str>, n: nat, fileName: Str, sectionName: Str, fieldsWritten: bool, rest: seq<Str>) returns (after: nat)
    requires fileName != []
    requires n <= |lines| && lines[n..] == EventLines(Header(fileName, sectionName), fieldsWritten) + rest
    ensures after <= |lines| && lines[after..] == rest
    ensures ReadFrom(lines, n, true, true) == Ok((IniReadResult(Section, Some(fileName), Some(sectionName), after), after))
  {
    var text := EventLines(Header(fileName, sectionName), fieldsWritten);
    SliceAfter(lines, n, text, rest);
    after := n + |text|;
    var m := after - 1;
    assert lines[m] == text[|text| - 1] == SectionLine(fileName, sectionName);
    SectionLineReadsBack(fileName, sectionName, m + 1);
    ReadLine(lines, m, IniReadResult(Section, Some(fileName), Some(sectionName), after));
    if fieldsWritten {
      assert lines[n] == text[0] == [];
      ReadBlank(lines, n);
    }
  }

  /** A field's line is read as its name and value. */
  lemma ReadField(lines: seq<Str>, n: nat, name: Str, value: Str, rest: seq<Str>)
    requires PlainKey(name)
    requires n <= |lines| && lines[n..] == [FieldLine(name, value)] + rest
    ensures n + 1 <= |lines| && lines[n + 1..] == rest
    ensures ReadFrom(lines, n, true, true) == Ok((IniReadResult(Field, Some(name), Some(value), n + 1), n + 1))
  {
    SliceAfter(lines, n, [FieldLine(name, value)], rest);
    FieldLineReadsBack(name, value, n + 1, true);
    ReadLine(lines, n, IniReadResult(Field, Some(name), Some(value), n + 1));
  }

  /** Loading the lines of readable calls ends where replaying the calls
      does. */
  lemma {:induction false} ReadBack(lines: seq<Str>, n: nat, events: seq<Event>, fieldsWritten: bool, st: Loading)
    requires n <= |lines| && lines[n..] == EventsText(events, fieldsWritten)
    requires Readable(events) && st.Valid() && Replay(events, st).Some?
    ensures LoadFrom(lines, n, st) == Ok(Replay(events, st).value.files)
    decreases |events|
  {
    if events == [] {
      assert |lines[n..]| == 0;
    } else {
      var rest := events[1..];
      assert Readable(rest) by {
        forall i | 0 <= i < |rest| ensures rest[i] == events[i + 1] {
        }
      }
      match events[0]
      case Header(fileName, sectionName) =>
        assert fileName != [];
        var after := ReadHeader(lines, n, fileName, sectionName, fieldsWritten, EventsText(rest, false));
        ReadBack(lines, after, rest, false, ApplySection(st, fileName, sectionName));
      case Value(name, value) =>
        assert PlainKey(name);
        ReadField(lines, n, name, value, EventsText(rest, true));
        ReadBack(lines, n + 1, rest, true, ApplyField(st, name, value));
    }
  }


  // ---------------------------------------------------------------------
  // Replaying a document's calls rebuilds it.

  /** The loader's state once files are complete: a cursor is set exactly
      when there is something for it to designate. */
  function At(files: seq<CoalFile>): (r: Loading)
    ensures r.Valid() && r.files == files
  {
    var file := files != [];
    var section := file && files[|files| - 1].sections != [];
    Loading(files, file, section, section && LastSection(files).fields != [])
  }

  /** Files whose last file, named fileName, ends with the section s. */
  function Build(before: seq<CoalFile>, fileName: Str, sections: seq<CoalSection>, s: CoalSection): (r: seq<CoalFile>)
    ensures r != [] && r[|r| - 1].sections != [] && LastSection(r) == s
  {
    before + [CoalFile(fileName, sections + [s])]
  }

  lemma SetLastOfBuild(before: seq<CoalFile>, fileName: Str, sections: seq<CoalSection>, s: CoalSection, s': CoalSection)
    ensures SetLastSection(Build(before, fileName, sections, s), s') == Build(before, fileName, sections, s')
  {
    var files := Build(before, fileName, sections, s);
    assert files[..|files| - 1] == before;
    assert (sections + [s])[..|sections|] == sections;
  }

  lemma AddSectionIsBuild(files: seq<CoalFile>, s: CoalSection)
    requires files != []
    ensures var f := files[|files| - 1];
      AddSection(files, s) == Build(files[..|files| - 1], f.fileName, f.sections, s)
  {
  }

  /** The loader's field rule on the current section, with the field
      cursor set exactly when the section has a field: the value joins the
      last field when it has this name, else starts a new field. */
  function Put(s: CoalSection, name: Str, value: Str): (r: CoalSection)
    ensures r.name == s.name && r.fields != [] && r.fields[|r.fields| - 1].name == name
    ensures |s.fields| <= |r.fields| <= |s.fields| + 1
  {
    if s.fields != [] && s.fields[|s.fields| - 1].name == name
    then CoalSection(s.name, s.fields[..|s.fields| - 1] + [CoalField(name, s.fields[|s.fields| - 1].values + [value])])
    else CoalSection(s.name, s.fields + [CoalField(name, [value])])
  }

  lemma PutAt(before: seq<CoalFile>, fileName: Str, sections: seq<CoalSection>, s: CoalSection, name: Str, value: Str)
    ensures ApplyField(At(Build(before, fileName, sections, s)), name, value) == At(Build(before, fileName, sections, Put(s, name, value)))
  {
    if s.fields != [] && s.fields[|s.fields| - 1].name == name {
      var f := s.fields[|s.fields| - 1];
      SetLastOfBuild(before, fileName, sections, s, CoalSection(s.name, s.fields[..|s.fields| - 1] + [CoalField(name, f.values + [value])]));
    } else {
      var fields := s.fields + [CoalField(name, [])];
      assert fields[..|fields| - 1] == s.fields;
      assert [] + [value] == [value];
      SetLastOfBuild(before, fileName, sections, s, CoalSection(s.name, s.fields + [CoalField(name, [value])]));
    }
  }

  /** Calls that are all field calls. */
  predicate AllValues(events: seq<Event>)
  {
    forall e :: e in events ==> e.Value?
  }

  /** Put for each of a run of field calls. */
  function PutAll(s: CoalSection, events: seq<Event>): (r: CoalSection)
    requires AllValues(events)
    ensures r.name == s.name
    decreases |events|
  {
    if events == [] then s
    else
      assert events[0] in events;
      PutAll(Put(s, events[0].name, events[0].value), events[1..])
  }

  /** Field calls under a complete section rebuild that section as PutAll
      says, and touch nothing else. */
  lemma {:induction false} ReplayPut(before: seq<CoalFile>, fileName: Str, sections: seq<CoalSection>, s: CoalSection, events: seq<Event>)
    requires AllValues(events)
    ensures Replay(events, At(Build(before, fileName, sections, s))) == Some(At(Build(before, fileName, sections, PutAll(s, events))))
    decreases |events|
  {
    if events != [] {
      assert events[0] in events;
      PutAt(before, fileName, sections, s, events[0].name, events[0].value);
      ReplayPut(before, fileName, sections, Put(s, events[0].name, events[0].value), events[1..]);
    }
  }

  lemma {:induction false} PutAllAppend(s: CoalSection, a: seq<Event>, b: seq<Event>)
    requires AllValues(a) && AllValues(b)
    ensures AllValues(a + b) && PutAll(s, a + b) == PutAll(PutAll(s, a), b)
    decreases |a|
  {
    if a != [] {
      assert (a + b)[0] == a[0] && (a + b)[1..] == a[1..] + b;
      assert a[0] in a;
      PutAllAppend(Put(s, a[0].name, a[0].value), a[1..], b);
    } else {
      assert a + b == b;
    }
  }

  /** A field's calls, under a section whose last field has another name,
      make one new field holding all its values. */
  lemma {:induction false} PutValues(s: CoalSection, name: Str, values: seq<Str>)
    requires values != []
    requires s.fields != [] ==> s.fields[|s.fields| - 1].name != name
    ensures AllValues(FieldEvents(CoalField(name, values)))
    ensures PutAll(s, FieldEvents(CoalField(name, values))) == CoalSection(s.name, s.fields + [CoalField(name, values)])
    decreases |values|
  {
    var last := values[|values| - 1];
    var init := values[..|values| - 1];
    assert values == init + [last];
    var events := FieldEvents(CoalField(name, values));
    assert events == FieldEvents(CoalField(name, init)) + [Value(name, last)];
    if init == [] {
      assert events == [Value(name, last)] && events[1..] == [];
    } else {
      var s1 := CoalSection(s.name, s.fields + [CoalField(name, init)]);
      PutValues(s, name, init);
      PutAllAppend(s, FieldEvents(CoalField(name, init)), [Value(name, last)]);
      assert PutAll(s1, [Value(name, last)]) == Put(s1, name, last) by {
        assert [Value(name, last)][1..] == [];
      }
      assert s1.fields[..|s1.fields| - 1] == s.fields;
    }
  }

  /** Fields the loader keeps apart: each has a plain key and a value, and
      neighbours have different names. */
  predicate FieldsLoadable(fields: seq<CoalField>)
  {
    forall k :: 0 <= k < |fields| ==>
      PlainKey(fields[k].name) && fields[k].values != [] && (k > 0 ==> fields[k - 1].name != fields[k].name)
  }

  /** Replaying a section's field calls on the empty section rebuilds its
      fields. */
  lemma {:induction false} PutFields(name: Str, fields: seq<CoalField>)
    requires FieldsLoadable(fields)
    ensures AllValues(FieldsEvents(fields))
    ensures PutAll(CoalSection(name, []), FieldsEvents(fields)) == CoalSection(name, fields)
    decreases |fields|
  {
    FieldsEventsCount(fields);
    if fields != [] {
      var init := fields[..|fields| - 1];
      var last := fields[|fields| - 1];
      assert FieldsLoadable(init) by {
        forall k | 0 <= k < |init| ensures init[k] == fields[k] {
        }
      }
      PutFields(name, init);
      PutValues(CoalSection(name, init), last.name, last.values);
      FieldsEventsCount(init);
      PutAllAppend(CoalSection(name, []), FieldsEvents(init), FieldEvents(last));
      assert init + [CoalField(last.name, last.values)] == fields;
    }
  }

  /** Sections the loader keeps apart: each is named, its fields are
      loadable, and neighbours have different names. */
  predicate SectionsLoadable(sections: seq<CoalSection>)
  {
    forall j :: 0 <= j < |sections| ==>
      sections[j].name != [] && FieldsLoadable(sections[j].fields) && (j > 0 ==> sections[j - 1].name != sections[j].name)
  }

  /** The files with a last file named fileName: the same files when the
      last one already has that name, else a new empty file after them. */
  function Within(files: seq<CoalFile>, fileName: Str): (r: seq<CoalFile>)
    ensures r != [] && r[|r| - 1].fileName == fileName
  {
    if files != [] && files[|files| - 1].fileName == fileName then files else files + [CoalFile(fileName, [])]
  }

  /** A header for a section other than the current one opens a new empty
      section, in a new file unless the current file has this name. */
  lemma HeaderAt(files: seq<CoalFile>, fileName: Str, sectionName: Str)
    requires sectionName != []
    requires files != [] && files[|files| - 1].fileName == fileName && files[|files| - 1].sections != [] ==>
      LastSection(files).name != sectionName
    ensures ApplySection(At(files), fileName, sectionName) == At(AddSection(Within(files, fileName), CoalSection(sectionName, [])))
  {
  }

  /** A section's calls add it, whole, to the current file. */
  lemma ReplaySection(files: seq<CoalFile>, fileName: Str, section: CoalSection)
    requires section.name != [] && FieldsLoadable(section.fields)
    requires files != [] && files[|files| - 1].fileName == fileName && files[|files| - 1].sections != [] ==>
      LastSection(files).name != section.name
    ensures Replay(SectionEvents(fileName, section), At(files)) == Some(At(AddSection(Within(files, fileName), section)))
  {
    var events := SectionEvents(fileName, section);
    var fields := FieldsEvents(section.fields);
    assert events[0] == Header(fileName, section.name) && events[1..] == fields;
    var w := Within(files, fileName);
    var f := w[|w| - 1];
    HeaderAt(files, fileName, section.name);
    AddSectionIsBuild(w, CoalSection(section.name, []));
    AddSectionIsBuild(w, section);
    PutFields(section.name, section.fields);
    ReplayPut(w[..|w| - 1], fileName, f.sections, CoalSection(section.name, []), fields);
  }

  /** A file's calls, after a file of another name, add it whole. */
  lemma {:induction false} ReplaySections(files: seq<CoalFile>, fileName: Str, sections: seq<CoalSection>)
    requires sections != [] && SectionsLoadable(sections)
    requires files != [] ==> files[|files| - 1].fileName != fileName
    ensures Replay(FileEvents(fileName, sections), At(files)) == Some(At(files + [CoalFile(fileName, sections)]))
    decreases |sections|
  {
    var init := sections[..|sections| - 1];
    var last := sections[|sections| - 1];
    assert init + [last] == sections;
    if init == [] {
      assert FileEvents(fileName, sections) == SectionEvents(fileName, last);
      ReplaySection(files, fileName, last);
    } else {
      assert SectionsLoadable(init) by {
        forall j | 0 <= j < |init| ensures init[j] == sections[j] {
        }
      }
      ReplaySections(files, fileName, init);
      ReplayNextSection(files, fileName, init, last);
    }
  }

  /** One more section after a file's first sections. */
  lemma ReplayNextSection(files: seq<CoalFile>, fileName: Str, init: seq<CoalSection>, last: CoalSection)
    requires init != [] && last.name != [] && FieldsLoadable(last.fields) && init[|init| - 1].name != last.name
    requires Replay(FileEvents(fileName, init), At(files)) == Some(At(files + [CoalFile(fileName, init)]))
    ensures Replay(FileEvents(fileName, init + [last]), At(files)) == Some(At(files + [CoalFile(fileName, init + [last])]))
  {
    var files1 := files + [CoalFile(fileName, init)];
    assert (init + [last])[..|init|] == init;
    ReplayAppend(FileEvents(fileName, init), SectionEvents(fileName, last), At(files));
    ReplaySection(files1, fileName, last);
    assert AddSection(files1, last) == files + [CoalFile(fileName, init + [last])] by {
      assert files1[..|files1| - 1] == files;
    }
  }

  /** A document in the form Load builds: every file is named and has a
      section, its sections are loadable, and neighbouring files have
      different names. */
  predicate Loadable(files: seq<CoalFile>)
  {
    forall i :: 0 <= i < |files| ==>
      files[i].fileName != [] && files[i].sections != [] && SectionsLoadable(files[i].sections) &&
      (i > 0 ==> files[i - 1].fileName != files[i].fileName)
  }

  /** Replaying the calls Save makes, from the loader's start, rebuilds a
      loadable document. */
  lemma {:induction false} ReplayFiles(files: seq<CoalFile>)
    requires Loadable(files)
    ensures Replay(Events(files), Start) == Some(At(files))
    decreases |files|
  {
    if files != [] {
      var init := files[..|files| - 1];
      var last := files[|files| - 1];
      LoadableInit(files);
      ReplayFiles(init);
      SnocSplit(files);
      FileStep(init, last, files);
    }
  }

  /** One more file after files already rebuilt. */
  lemma {:induction false} FileStep(init: seq<CoalFile>, last: CoalFile, files: seq<CoalFile>)
    requires files == init + [last]
    requires Replay(Events(init), Start) == Some(At(init))
    requires last.sections != [] && SectionsLoadable(last.sections)
    requires init != [] ==> init[|init| - 1].fileName != last.fileName
    ensures Replay(Events(files), Start) == Some(At(files))
  {
    var e, fe := Events(init), FileEvents(last.fileName, last.sections);
    assert files[..|files| - 1] == init;
    assert Events(files) == e + fe;
    ReplayAppend(e, fe, Start);
    ReplaySections(init, last.fileName, last.sections);
  }

  lemma SnocSplit<T>(xs: seq<T>)
    requires xs != []
    ensures xs == xs[..|xs| - 1] + [xs[|xs| - 1]]
  {
  }

  lemma LoadableInit(files: seq<CoalFile>)
    requires files != [] && Loadable(files)
    ensures Loadable(files[..|files| - 1])
    ensures var init, last := files[..|files| - 1], files[|files| - 1];
      last.sections != [] && SectionsLoadable(last.sections) && (init != [] ==> init[|init| - 1].fileName != last.fileName)
  {
    var init := files[..|files| - 1];
    forall i | 0 <= i < |init| ensures init[i] == files[i] {
    }
  }

  // ---------------------------------------------------------------------
  // The written lines of a loadable document read back.

  lemma {:induction false} FieldsReadable(fields: seq<CoalField>)
    requires FieldsLoadable(fields)
    ensures Readable(FieldsEvents(fields))
    decreases |fields|
  {
    if fields != [] {
      var init := fields[..|fields| - 1];
      assert FieldsLoadable(init) by {
        forall k | 0 <= k < |init| ensures init[k] == fields[k] {
        }
      }
      FieldsReadable(init);
      var last := FieldEvents(fields[|fields| - 1]);
      assert Readable(last) by {
        forall i | 0 <= i < |last| ensures last[i].Value? && last[i].name == fields[|fields| - 1].name {
          assert last[i] in last;
        }
      }
      ReadableAppend(FieldsEvents(init), last);
    }
  }

  lemma {:induction false} SectionsReadable(fileName: Str, sections: seq<CoalSection>)
    requires fileName != [] && SectionsLoadable(sections)
    ensures Readable(FileEvents(fileName, sections))
    decreases |sections|
  {
    if sections != [] {
      var init := sections[..|sections| - 1];
      var last := sections[|sections| - 1];
      assert SectionsLoadable(init) by {
        forall j | 0 <= j < |init| ensures init[j] == sections[j] {
        }
      }
      SectionsReadable(fileName, init);
      FieldsReadable(last.fields);
      ReadableAppend([Header(fileName, last.name)], FieldsEvents(last.fields));
      ReadableAppend(FileEvents(fileName, init), SectionEvents(fileName, last));
    }
  }

  lemma {:induction false} FilesReadable(files: seq<CoalFile>)
    requires Loadable(files)
    ensures Readable(Events(files))
    decreases |files|
  {
    if files != [] {
      var init := files[..|files| - 1];
      var last := files[|files| - 1];
      assert Loadable(init) by {
        forall i | 0 <= i < |init| ensures init[i] == files[i] {
        }
      }
      FilesReadable(init);
      SectionsReadable(last.fileName, last.sections);
      ReadableAppend(Events(init), FileEvents(last.fileName, last.sections));
    }
  }

  /** Save then Load: the lines Save writes after its first line load back
      as the same files, for every document in the form Load builds. */
  lemma SaveLoadRoundTrip(files: seq<CoalFile>)
    requires Loadable(files)
    ensures LoadFrom(EventsText(Events(files), false), 0, Start) == Ok(files)
  {
    var lines := EventsText(Events(files), false);
    assert lines[0..] == lines;
    ReplayFiles(files);
    FilesReadable(files);
    ReadBack(lines, 0, Events(files), false, Start);
  }
}
