/** EncDoc: the document the older converters build from INI text before
    they write the binary (CoalescedConverter.cs:297-318 and
    CoalescedConverterME12LE.cs:140-161 declare the same private classes).
    Each field holds exactly one value; repeated keys stay separate fields. */
module EncDocument {
  import opened Wrappers
  import opened Primitives
  import opened Document

  datatype EncField = EncField(name: Str, value: Str)

  datatype EncSection = EncSection(name: Str, fields: seq<EncField>)

  datatype EncFile = EncFile(fileName: Str, sections: seq<EncSection>)

  /** The builder of Encode's read loop: the files so far, and whether
      `currentSection` is set. `currentFile` is always the last file, and
      `currentSection`, when set, the last section of that file, so both
      are modelled by position. */
  datatype Building = Building(files: seq<EncFile>, section: bool)
  {
    predicate Valid()
    {
      section ==> files != [] && files[|files| - 1].sections != []
    }
  }

  const Empty := Building([], false)

  function LastFile(b: Building): EncFile
    requires b.files != []
  {
    b.files[|b.files| - 1]
  }

  /** A header naming fileName and sectionName: a new file unless the
      current one has that name, then a new empty section, or no current
      section when the section name is empty. */
  function OnHeader(b: Building, fileName: Str, sectionName: Str): (r: Building)
    ensures r.Valid() && r.files != [] && LastFile(r).fileName == fileName
    ensures r.section <==> sectionName != []
    ensures b.files == [] || LastFile(b).fileName != fileName ==>
              |r.files| == |b.files| + 1 && r.files[..|b.files|] == b.files
    ensures b.files != [] && LastFile(b).fileName == fileName ==> |r.files| == |b.files|
    ensures sectionName == [] ==> LastFile(r).sections == (if |r.files| == |b.files| then LastFile(b).sections else [])
    ensures sectionName != [] ==>
              var s := LastFile(r).sections; s[|s| - 1] == EncSection(sectionName, [])
  {
    var files := if b.files == [] || LastFile(b).fileName != fileName then b.files + [EncFile(fileName, [])] else b.files;
    var f := files[|files| - 1];
    if sectionName == [] then Building(files, false)
    else Building(files[..|files| - 1] + [EncFile(f.fileName, f.sections + [EncSection(sectionName, [])])], true)
  }

  /** A field line: appended to the current section, or None (the caller's
      IniNoCurrentSectionException) when no section is current. */
  function OnField(b: Building, name: Str, value: Str): (r: Option<Building>)
    requires b.Valid()
    ensures r.Some? <==> b.section
    ensures r.Some? ==> r.value.Valid() && r.value.section && |r.value.files| == |b.files|
    ensures r.Some? ==> r.value.files[..|b.files| - 1] == b.files[..|b.files| - 1]
    ensures r.Some? ==>
              var s := LastFile(b).sections; var s' := LastFile(r.value).sections;
              |s'| == |s| && s'[..|s| - 1] == s[..|s| - 1] &&
              s'[|s| - 1] == EncSection(s[|s| - 1].name, s[|s| - 1].fields + [EncField(name, value)])
  {
    if !b.section then None
    else
      var f := LastFile(b);
      var s := f.sections[|f.sections| - 1];
      var s' := EncSection(s.name, s.fields + [EncField(name, value)]);
      Some(Building(b.files[..|b.files| - 1] + [EncFile(f.fileName, f.sections[..|f.sections| - 1] + [s'])], true))
  }

  // ---------------------------------------------------------------------
  // The header and field events a document is written as.

  function EncFieldsEvents(fields: seq<EncField>): (r: seq<Event>)
    ensures |r| == |fields|
  {
    if fields == [] then []
    else EncFieldsEvents(fields[..|fields| - 1]) + [Value(fields[|fields| - 1].name, fields[|fields| - 1].value)]
  }

  function EncSectionEvents(fileName: Str, section: EncSection): seq<Event>
  {
    [Header(fileName, section.name)] + EncFieldsEvents(section.fields)
  }

  function EncSectionsEvents(fileName: Str, sections: seq<EncSection>): seq<Event>
  {
    if sections == [] then []
    else EncSectionsEvents(fileName, sections[..|sections| - 1]) + EncSectionEvents(fileName, sections[|sections| - 1])
  }

  /** A file with no sections still has its header, with an empty section
      name, so that the file is recreated. */
  function EncFileEvents(file: EncFile): seq<Event>
  {
    if file.sections == [] then [Header(file.fileName, [])] else EncSectionsEvents(file.fileName, file.sections)
  }

  function EncEvents(files: seq<EncFile>): seq<Event>
  {
    if files == [] then [] else EncEvents(files[..|files| - 1]) + EncFileEvents(files[|files| - 1])
  }

  // ---------------------------------------------------------------------
  // The builder driven by events.

  /** The builder after the events: None at a field with no current section. */
  function Rebuild(events: seq<Event>, b: Building): (r: Option<Building>)
    requires b.Valid()
    ensures r.Some? ==> r.value.Valid()
    decreases |events|
  {
    if events == [] then Some(b)
    else
      match events[0]
      case Header(fileName, sectionName) => Rebuild(events[1..], OnHeader(b, fileName, sectionName))
      case Value(name, value) =>
        match OnField(b, name, value)
        case None => None
        case Some(b') => Rebuild(events[1..], b')
  }

  lemma {:induction false} RebuildAppend(a: seq<Event>, c: seq<Event>, b: Building)
    requires b.Valid() && Rebuild(a, b).Some?
    ensures Rebuild(a + c, b) == Rebuild(c, Rebuild(a, b).value)
    decreases |a|
  {
    if a != [] {
      assert (a + c)[0] == a[0] && (a + c)[1..] == a[1..] + c;
      match a[0]
      case Header(fileName, sectionName) =>
        RebuildAppend(a[1..], c, OnHeader(b, fileName, sectionName));
      case Value(name, value) =>
        RebuildAppend(a[1..], c, OnField(b, name, value).value);
    } else {
      assert a + c == c;
    }
  }

  /** A document the builder gives back from its events: neighbouring
      files have different names (the builder merges them otherwise) and
      every section has a name (an empty one opens no section). */
  predicate Buildable(files: seq<EncFile>)
  {
    files == [] ||
    (Buildable(files[..|files| - 1]) && SectionsNamed(files[|files| - 1].sections) &&
     (|files| == 1 || files[|files| - 2].fileName != files[|files| - 1].fileName))
  }

  predicate SectionsNamed(sections: seq<EncSection>)
  {
    forall i :: 0 <= i < |sections| ==> sections[i].name != []
  }

  /** The builder once a document's events are done. */
  function Built(files: seq<EncFile>): (r: Building)
    ensures r.Valid()
  {
    Building(files, files != [] && files[|files| - 1].sections != [])
  }

  /** The fields of the current section are appended one by one. */
  lemma {:induction false} RebuildFields(pre: seq<EncFile>, fileName: Str, before: seq<EncSection>, name: Str,
                                         done: seq<EncField>, fields: seq<EncField>)
    ensures Rebuild(EncFieldsEvents(fields), Building(pre + [EncFile(fileName, before + [EncSection(name, done)])], true))
            == Some(Building(pre + [EncFile(fileName, before + [EncSection(name, done + fields)])], true))
    decreases |fields|
  {
    if fields == [] {
      assert done + fields == done;
    } else {
      var init, last := fields[..|fields| - 1], fields[|fields| - 1];
      var b := Building(pre + [EncFile(fileName, before + [EncSection(name, done)])], true);
      RebuildFields(pre, fileName, before, name, done, init);
      var mid := Building(pre + [EncFile(fileName, before + [EncSection(name, done + init)])], true);
      RebuildAppend(EncFieldsEvents(init), [Value(last.name, last.value)], b);
      FieldStep(pre, fileName, before, name, done + init, last);
      assert done + init + [last] == done + fields;
    }
  }

  lemma FieldStep(pre: seq<EncFile>, fileName: Str, before: seq<EncSection>, name: Str, done: seq<EncField>, field: EncField)
    ensures Rebuild([Value(field.name, field.value)], Building(pre + [EncFile(fileName, before + [EncSection(name, done)])], true))
            == Some(Building(pre + [EncFile(fileName, before + [EncSection(name, done + [field])])], true))
  {
    var files := pre + [EncFile(fileName, before + [EncSection(name, done)])];
    assert files[..|files| - 1] == pre;
    var sections := before + [EncSection(name, done)];
    assert sections[..|sections| - 1] == before;
  }

  /** A header for a new section of the current file. */
  lemma HeaderStep(pre: seq<EncFile>, fileName: Str, before: seq<EncSection>, name: Str)
    requires before != [] && name != []
    ensures OnHeader(Building(pre + [EncFile(fileName, before)], true), fileName, name)
            == Building(pre + [EncFile(fileName, before + [EncSection(name, [])])], true)
  {
    var files := pre + [EncFile(fileName, before)];
    assert files[..|files| - 1] == pre;
  }

  /** A header for a new file. */
  lemma NewFileStep(b: Building, fileName: Str, name: Str)
    requires b.files == [] || LastFile(b).fileName != fileName
    ensures OnHeader(b, fileName, name)
            == if name == [] then Building(b.files + [EncFile(fileName, [])], false)
               else Building(b.files + [EncFile(fileName, [EncSection(name, [])])], true)
  {
    var files := b.files + [EncFile(fileName, [])];
    assert files[..|files| - 1] == b.files;
    assert [] + [EncSection(name, [])] == [EncSection(name, [])];
  }

  /** The sections of a new file, header after header. */
  lemma {:induction false} RebuildSections(b: Building, fileName: Str, sections: seq<EncSection>)
    requires b.Valid() && sections != [] && SectionsNamed(sections)
    requires b.files == [] || LastFile(b).fileName != fileName
    ensures Rebuild(EncSectionsEvents(fileName, sections), b) == Some(Building(b.files + [EncFile(fileName, sections)], true))
    decreases |sections|
  {
    var init, last := sections[..|sections| - 1], sections[|sections| - 1];
    assert last.name != [];
    if init == [] {
      FirstSection(b, fileName, last);
      assert [last] == sections;
    } else {
      assert SectionsNamed(init) by {
        forall i | 0 <= i < |init| ensures init[i].name != [] {
          assert init[i] == sections[i];
        }
      }
      RebuildSections(b, fileName, init);
      NextSection(b, fileName, init, last);
      Snoc(sections);
    }
  }

  /** The first section's header opens the file. */
  lemma FirstSection(b: Building, fileName: Str, last: EncSection)
    requires b.Valid() && last.name != []
    requires b.files == [] || LastFile(b).fileName != fileName
    ensures Rebuild(EncSectionsEvents(fileName, [last]), b) == Some(Building(b.files + [EncFile(fileName, [last])], true))
  {
    var head := [Header(fileName, last.name)];
    assert [last][..0] == [];
    assert EncSectionsEvents(fileName, [last]) == head + EncFieldsEvents(last.fields);
    NewFileStep(b, fileName, last.name);
    var started := Building(b.files + [EncFile(fileName, [EncSection(last.name, [])])], true);
    assert Rebuild(head, b) == Some(started);
    RebuildAppend(head, EncFieldsEvents(last.fields), b);
    assert [EncSection(last.name, [])] == [] + [EncSection(last.name, [])];
    RebuildFields(b.files, fileName, [], last.name, [], last.fields);
    assert [] + last.fields == last.fields;
    assert [] + [EncSection(last.name, last.fields)] == [last];
  }

  /** A later section's header adds it to the file. */
  lemma NextSection(b: Building, fileName: Str, init: seq<EncSection>, last: EncSection)
    requires b.Valid() && last.name != [] && init != []
    requires Rebuild(EncSectionsEvents(fileName, init), b) == Some(Building(b.files + [EncFile(fileName, init)], true))
    ensures Rebuild(EncSectionsEvents(fileName, init + [last]), b) == Some(Building(b.files + [EncFile(fileName, init + [last])], true))
  {
    var sections := init + [last];
    assert sections[..|sections| - 1] == init;
    var head := [Header(fileName, last.name)];
    assert EncSectionsEvents(fileName, sections) == EncSectionsEvents(fileName, init) + (head + EncFieldsEvents(last.fields));
    var mid := Building(b.files + [EncFile(fileName, init)], true);
    HeaderStep(b.files, fileName, init, last.name);
    var started := Building(b.files + [EncFile(fileName, init + [EncSection(last.name, [])])], true);
    assert Rebuild(head, mid) == Some(started);
    RebuildAppend(EncSectionsEvents(fileName, init), head + EncFieldsEvents(last.fields), b);
    RebuildAppend(head, EncFieldsEvents(last.fields), mid);
    RebuildFields(b.files, fileName, init, last.name, [], last.fields);
    assert [] + last.fields == last.fields;
  }

  lemma Snoc<T>(xs: seq<T>)
    requires xs != []
    ensures xs[..|xs| - 1] + [xs[|xs| - 1]] == xs
  {
  }

  lemma Associative3<T>(x: seq<T>, y: seq<T>, z: seq<T>)
    ensures x + (y + z) == x + y + z
  {
  }

  /** One file after the files before it. */
  lemma RebuildFile(b: Building, file: EncFile)
    requires b.Valid() && SectionsNamed(file.sections)
    requires b.files == [] || LastFile(b).fileName != file.fileName
    ensures Rebuild(EncFileEvents(file), b) == Some(Built(b.files + [file]))
  {
    if file.sections == [] {
      NewFileStep(b, file.fileName, []);
    } else {
      RebuildSections(b, file.fileName, file.sections);
    }
  }

  /** The builder gives back every buildable document from its events. */
  lemma {:induction false} RebuildFiles(files: seq<EncFile>)
    requires Buildable(files)
    ensures Rebuild(EncEvents(files), Empty) == Some(Built(files))
    decreases |files|
  {
    if files != [] {
      var init, last := files[..|files| - 1], files[|files| - 1];
      assert Buildable(init) && SectionsNamed(last.sections);
      assert init != [] ==> init[|init| - 1] == files[|files| - 2];
      RebuildFiles(init);
      assert EncEvents(files) == EncEvents(init) + EncFileEvents(last);
      RebuildAppend(EncEvents(init), EncFileEvents(last), Empty);
      RebuildFile(Built(init), last);
      Snoc(files);
    }
  }

  // ---------------------------------------------------------------------
  // The same document as a CoalDocument tree: one value per field.

  function LiftField(field: EncField): CoalField
  {
    CoalField(field.name, [field.value])
  }

  function LiftFields(fields: seq<EncField>): (r: seq<CoalField>)
    ensures |r| == |fields|
  {
    if fields == [] then [] else LiftFields(fields[..|fields| - 1]) + [LiftField(fields[|fields| - 1])]
  }

  function LiftSection(section: EncSection): CoalSection
  {
    CoalSection(section.name, LiftFields(section.fields))
  }

  function LiftSections(sections: seq<EncSection>): (r: seq<CoalSection>)
    ensures |r| == |sections|
  {
    if sections == [] then [] else LiftSections(sections[..|sections| - 1]) + [LiftSection(sections[|sections| - 1])]
  }

  function LiftFile(file: EncFile): CoalFile
  {
    CoalFile(file.fileName, LiftSections(file.sections))
  }

  function Lift(files: seq<EncFile>): (r: seq<CoalFile>)
    ensures |r| == |files|
  {
    if files == [] then [] else Lift(files[..|files| - 1]) + [LiftFile(files[|files| - 1])]
  }

  /** A section's field count is its ValueCount: one value per field. */
  lemma {:induction false} LiftValues(fields: seq<EncField>)
    ensures Values(LiftFields(fields)) == |fields|
    decreases |fields|
  {
    if fields != [] {
      LiftValues(fields[..|fields| - 1]);
      assert LiftFields(fields)[..|fields| - 1] == LiftFields(fields[..|fields| - 1]);
    }
  }

  /** Splitting fields into single-valued ones leaves a lifted section as it is. */
  lemma {:induction false} LiftSplit(fields: seq<EncField>)
    ensures SplitFields(LiftFields(fields)) == LiftFields(fields)
    ensures EncFieldsEvents(fields) == FieldsEvents(LiftFields(fields))
    decreases |fields|
  {
    if fields != [] {
      var init, last := fields[..|fields| - 1], fields[|fields| - 1];
      LiftSplit(init);
      var lifted := LiftFields(fields);
      assert lifted[..|lifted| - 1] == LiftFields(init);
      var c := LiftField(last);
      assert lifted[|lifted| - 1] == c;
      assert Singles(last.name, [last.value]) == [c] by {
        assert [last.value][..0] == [];
      }
      assert FieldEvents(c) == [Value(last.name, last.value)] by {
        assert c.values[..0] == [];
        assert FieldEvents(CoalField(c.name, [])) == [];
      }
    }
  }

  /** A lifted file's sections split as they are and give the file's events. */
  lemma {:induction false} LiftSectionsSplit(fileName: Str, sections: seq<EncSection>)
    ensures SplitSections(LiftSections(sections)) == LiftSections(sections)
    ensures FileEvents(fileName, LiftSections(sections)) == EncSectionsEvents(fileName, sections)
    decreases |sections|
  {
    if sections != [] {
      var init, last := sections[..|sections| - 1], sections[|sections| - 1];
      LiftSectionsSplit(fileName, init);
      LiftSplit(last.fields);
      var lifted := LiftSections(sections);
      assert lifted[..|lifted| - 1] == LiftSections(init);
      assert lifted[|lifted| - 1] == LiftSection(last);
    }
  }
}
