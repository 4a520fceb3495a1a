/** What Load gives back for the archive Save writes: every field split
    into one single-valued field per value, and a file without sections
    given one empty section named "". The grammar is proved over any
    layout whose strings and ints read back, then instantiated with the
    ME1/2 LE layout. */
module ME12LERoundTrip {
  import opened Wrappers
  import opened Primitives
  import opened ByteCodec
  import opened StringCodec
  import opened Document
  import opened ME12LE

  /** Every value storable; like the storable predicates below, defined
      from the last item back, as the bytes are. */
  predicate ValuesStorable(L: Layout, values: seq<Str>)
  {
    values == [] || (ValuesStorable(L, values[..|values| - 1]) && L.keeps(values[|values| - 1]))
  }

  predicate FieldStorable(L: Layout, field: CoalField)
  {
    L.keeps(field.name) && ValuesStorable(L, field.values)
  }

  predicate FieldsStorable(L: Layout, fields: seq<CoalField>)
  {
    fields == [] || (FieldsStorable(L, fields[..|fields| - 1]) && FieldStorable(L, fields[|fields| - 1]))
  }

  predicate SectionStorable(L: Layout, section: CoalSection)
  {
    L.keeps(section.name) && section.ValueCount() < 0x8000_0000 && FieldsStorable(L, section.fields)
  }

  predicate SectionsStorable(L: Layout, sections: seq<CoalSection>)
  {
    sections == [] || (SectionsStorable(L, sections[..|sections| - 1]) && SectionStorable(L, sections[|sections| - 1]))
  }

  predicate FileStorable(L: Layout, file: CoalFile)
  {
    L.keeps(file.fileName) && |file.sections| < 0x8000_0000 && SectionsStorable(L, file.sections)
  }

  predicate FilesStorable(L: Layout, files: seq<CoalFile>)
  {
    files == [] || (FilesStorable(L, files[..|files| - 1]) && FileStorable(L, files[|files| - 1]))
  }

  /** A document Save can write and Load read back. */
  predicate Storables(L: Layout, files: seq<CoalFile>)
  {
    |files| < 0x8000_0000 && FilesStorable(L, files)
  }

  /** Every storable string the layout writes reads back, wherever it sits. */
  ghost predicate StringsReadBack(L: Layout)
  {
    forall s: Str, d: seq<byte>, q: nat {:trigger Stored(d, q, L.writeString(s))} :: L.keeps(s) && Stored(d, q, L.writeString(s)) ==>
      L.readString(d, q) == Ok((s, q + |L.writeString(s)|))
  }

  /** Every int the layout writes reads back, wherever it sits. */
  ghost predicate IntsReadBack(L: Layout)
  {
    forall v: int32, d: seq<byte>, q: nat {:trigger Stored(d, q, L.writeInt(v))} :: Stored(d, q, L.writeInt(v)) ==> L.readInt(d, q) == Ok((v, q + |L.writeInt(v)|))
  }

  /** The ME1/2 LE layout is one: its strings read back ... */
  lemma ME12StringsReadBack()
    ensures StringsReadBack(ME12)
  {
    forall s: Str, d: seq<byte>, q: nat | ME12.keeps(s) && Stored(d, q, ME12.writeString(s))
      ensures ME12.readString(d, q) == Ok((s, q + |ME12.writeString(s)|))
    {
      ME12At(d, q, s);
    }
  }

  /** ... and so do its ints. */
  lemma ME12IntsReadBack()
    ensures IntsReadBack(ME12)
  {
    forall v: int32, d: seq<byte>, q: nat | Stored(d, q, ME12.writeInt(v))
      ensures ME12.readInt(d, q) == Ok((v, q + |ME12.writeInt(v)|))
    {
      StoredSlice(d, q, ME12.writeInt(v));
      ReadInt32Of(d, q, v);
    }
  }

  // ---------------------------------------------------------------------
  // The document Load rebuilds.

  /** A file as Load rebuilds it. */
  function Reloaded(file: CoalFile): CoalFile
  {
    CoalFile(file.fileName, if file.sections == [] then [CoalSection([], [])] else SplitSections(file.sections))
  }

  function ReloadedFiles(files: seq<CoalFile>): seq<CoalFile>
  {
    if files == [] then []
    else ReloadedFiles(files[..|files| - 1]) + [Reloaded(files[|files| - 1])]
  }

  // ---------------------------------------------------------------------
  // Reading a count in two goes.

  lemma {:induction false} ReadPairsCompose(L: Layout, d: seq<byte>, p: nat, k: nat, m: nat, acc: seq<CoalField>,
                                            xs: seq<CoalField>, q: nat)
    requires ReadPairs(L, d, p, k, acc) == Ok((xs, q))
    ensures ReadPairs(L, d, p, k + m, acc) == ReadPairs(L, d, q, m, xs)
    decreases k
  {
    if k > 0 {
      var field := ReadPair(L, d, p).value;
      ReadPairsCompose(L, d, field.1, k - 1, m, acc + [field.0], xs, q);
    }
  }

  lemma {:induction false} ReadSectionsSnoc(L: Layout, d: seq<byte>, p: nat, n: nat, acc: seq<CoalSection>,
                                  xs: seq<CoalSection>, q: nat, x: CoalSection, r: nat)
    requires ReadSections(L, d, p, n, acc) == Ok((xs, q)) && ReadSection(L, d, q) == Ok((x, r))
    ensures ReadSections(L, d, p, n + 1, acc) == Ok((xs + [x], r))
    decreases n
  {
    if n > 0 {
      var section := ReadSection(L, d, p).value;
      ReadSectionsSnoc(L, d, section.1, n - 1, acc + [section.0], xs, q, x, r);
    }
  }

  function FileReader(L: Layout): (seq<byte>, nat) -> Result<(CoalFile, nat)>
  {
    (d, p) => ReadFile(L, d, p)
  }

  lemma {:induction false} ReadFilesCounted(L: Layout, d: seq<byte>, p: nat, n: int, acc: seq<CoalFile>)
    ensures ReadFiles(L, d, p, n, acc) == ReadCounted(FileReader(L), d, p, n, acc)
    decreases if n > 0 then n else 0
  {
    if n > 0 {
      var file := ReadFile(L, d, p);
      if file.Ok? {
        ReadFilesCounted(L, d, file.value.1, n - 1, acc + [file.value.0]);
      }
    }
  }

  // ---------------------------------------------------------------------
  // Each piece Save writes reads back wherever it is stored.

  lemma PairReadBack(L: Layout, d: seq<byte>, p: nat, name: Str, value: Str)
    requires StringsReadBack(L) && L.keeps(name) && L.keeps(value)
    requires Stored(d, p, L.writeString(name) + L.writeString(value))
    ensures ReadPair(L, d, p) == Ok((CoalField(name, [value]), p + |L.writeString(name) + L.writeString(value)|))
  {
    StoredSplit(d, p, L.writeString(name), L.writeString(value));
  }

  lemma {:induction false} ValuesReadBack(L: Layout, d: seq<byte>, p: nat, name: Str, values: seq<Str>,
                                          acc: seq<CoalField>)
    requires StringsReadBack(L) && L.keeps(name) && ValuesStorable(L, values)
    requires Stored(d, p, ValuesBytes(L, name, values))
    ensures ReadPairs(L, d, p, |values|, acc) == Ok((acc + Singles(name, values), p + |ValuesBytes(L, name, values)|))
    decreases |values|
  {
    if values != [] {
      var init, last := values[..|values| - 1], values[|values| - 1];
      var a, b := ValuesBytes(L, name, init), L.writeString(name) + L.writeString(last);
      StoredSplit(d, p, a, b);
      ValuesReadBack(L, d, p, name, init, acc);
      ReadPairsCompose(L, d, p, |init|, 1, acc, acc + Singles(name, init), p + |a|);
      PairReadBack(L, d, p + |a|, name, last);
      assert acc + Singles(name, values) == acc + Singles(name, init) + [CoalField(name, [last])];
    } else {
      assert acc + [] == acc;
    }
  }

  lemma {:induction false} FieldsReadBack(L: Layout, d: seq<byte>, p: nat, fields: seq<CoalField>, acc: seq<CoalField>)
    requires StringsReadBack(L) && FieldsStorable(L, fields)
    requires Stored(d, p, FieldsBytes(L, fields))
    ensures ReadPairs(L, d, p, Values(fields), acc) == Ok((acc + SplitFields(fields), p + |FieldsBytes(L, fields)|))
    decreases |fields|
  {
    if fields != [] {
      var init, last := fields[..|fields| - 1], fields[|fields| - 1];
      var a, b := FieldsBytes(L, init), ValuesBytes(L, last.name, last.values);
      StoredSplit(d, p, a, b);
      FieldsReadBack(L, d, p, init, acc);
      ReadPairsCompose(L, d, p, Values(init), |last.values|, acc, acc + SplitFields(init), p + |a|);
      ValuesReadBack(L, d, p + |a|, last.name, last.values, acc + SplitFields(init));
      assert acc + SplitFields(fields) == acc + SplitFields(init) + Singles(last.name, last.values);
    } else {
      assert acc + [] == acc;
    }
  }

  lemma SectionReadBack(L: Layout, d: seq<byte>, p: nat, section: CoalSection)
    requires StringsReadBack(L) && IntsReadBack(L)
    requires SectionStorable(L, section) && Stored(d, p, SectionBytes(L, section))
    ensures ReadSection(L, d, p) == Ok((SplitSection(section), p + |SectionBytes(L, section)|))
  {
    var a, b, c := L.writeString(section.name), L.writeInt(section.ValueCount()), FieldsBytes(L, section.fields);
    StoredSplit3(d, p, a, b, c);
    assert L.readInt(d, p + |a|) == Ok((section.ValueCount() as int32, p + |a| + |b|));
    FieldsReadBack(L, d, p + |a| + |b|, section.fields, []);
    assert [] + SplitFields(section.fields) == SplitFields(section.fields);
  }

  lemma {:induction false} SectionsReadBack(L: Layout, d: seq<byte>, p: nat, sections: seq<CoalSection>,
                                            acc: seq<CoalSection>)
    requires StringsReadBack(L) && IntsReadBack(L)
    requires SectionsStorable(L, sections)
    requires Stored(d, p, SectionsBytes(L, sections))
    ensures ReadSections(L, d, p, |sections|, acc) == Ok((acc + SplitSections(sections), p + |SectionsBytes(L, sections)|))
    decreases |sections|
  {
    if sections != [] {
      var init, last := sections[..|sections| - 1], sections[|sections| - 1];
      var a, b := SectionsBytes(L, init), SectionBytes(L, last);
      StoredSplit(d, p, a, b);
      SectionsReadBack(L, d, p, init, acc);
      SectionReadBack(L, d, p + |a|, last);
      ReadSectionsSnoc(L, d, p, |init|, acc, acc + SplitSections(init), p + |a|, SplitSection(last), p + |a| + |b|);
      assert acc + SplitSections(sections) == acc + SplitSections(init) + [SplitSection(last)];
    } else {
      assert acc + [] == acc;
    }
  }

  lemma FileReadBack(L: Layout, d: seq<byte>, p: nat, file: CoalFile)
    requires StringsReadBack(L) && IntsReadBack(L)
    requires FileStorable(L, file) && Stored(d, p, FileBytes(L, file))
    ensures ReadFile(L, d, p) == Ok((Reloaded(file), p + |FileBytes(L, file)|))
  {
    var a, b, c := L.writeString(file.fileName), L.writeInt(|file.sections|), SectionsBytes(L, file.sections);
    StoredSplit3(d, p, a, b, c);
    assert L.readInt(d, p + |a|) == Ok((|file.sections| as int32, p + |a| + |b|));
    if file.sections != [] {
      SectionsReadBack(L, d, p + |a| + |b|, file.sections, []);
      assert [] + SplitSections(file.sections) == SplitSections(file.sections);
    } else {
      assert c == [];
    }
  }

  // ---------------------------------------------------------------------
  // The file list, read by any reader that reads back each item; nothing
  // here looks inside a file.

  function FileEncoder(L: Layout): CoalFile -> seq<byte>
  {
    file => FileBytes(L, file)
  }

  function FileChecker(L: Layout): CoalFile -> bool
  {
    file => FileStorable(L, file)
  }

  /** ReadFile reads back every storable file the layout writes. */
  lemma FileReadsBack(L: Layout)
    requires StringsReadBack(L) && IntsReadBack(L)
    ensures ReadsEach(FileReader(L), FileEncoder(L), FileChecker(L), Reloaded)
  {
    forall file: CoalFile, d: seq<byte>, q: nat | FileStorable(L, file) && Stored(d, q, FileBytes(L, file))
      ensures ReadFile(L, d, q) == Ok((Reloaded(file), q + |FileBytes(L, file)|))
    {
      FileReadBack(L, d, q, file);
    }
  }

  lemma {:induction false} FilesAsList(L: Layout, files: seq<CoalFile>)
    ensures Concat(FileEncoder(L), files) == FilesBytes(L, files)
    ensures MapSeq(Reloaded, files) == ReloadedFiles(files)
    ensures AllOk(FileChecker(L), files) == FilesStorable(L, files)
    decreases |files|
  {
    if files != [] {
      FilesAsList(L, files[..|files| - 1]);
    }
  }

  /** The archive round trip over any layout whose strings and ints read back. */
  lemma LayoutRoundTrip(L: Layout, files: seq<CoalFile>)
    requires StringsReadBack(L) && IntsReadBack(L) && Storables(L, files)
    ensures LoadBytes(L, SaveBytes(L, files)) == Ok(ReloadedFiles(files))
  {
    var d := SaveBytes(L, files);
    var a, b := L.writeInt(|files|), FilesBytes(L, files);
    StoredWhole([], d, []);
    assert [] + d + [] == d;
    StoredSplit(d, 0, a, b);
    assert L.readInt(d, 0) == Ok((|files| as int32, |a|));
    FileReadsBack(L);
    FilesAsList(L, files);
    ReadAll(FileReader(L), FileEncoder(L), FileChecker(L), Reloaded, d, |a|, files);
    ReadFilesCounted(L, d, |a|, |files|, []);
  }

  /** Loading what Save writes gives the document back with each field
      split into single-valued fields and each section-less file given an
      empty section. */
  lemma SaveLoadRoundTrip(files: seq<CoalFile>)
    requires Storables(ME12, files)
    ensures LoadBytes(ME12, SaveBytes(ME12, files)) == Ok(ReloadedFiles(files))
  {
    ME12StringsReadBack();
    ME12IntsReadBack();
    LayoutRoundTrip(ME12, files);
  }

  /** A file with no sections does not survive Save then Load unchanged:
      it comes back with one empty section named "". */
  lemma EmptyFileGainsSection(name: Str)
    requires Storable(name)
    ensures LoadBytes(ME12, SaveBytes(ME12, [CoalFile(name, [])])) == Ok([CoalFile(name, [CoalSection([], [])])])
    ensures LoadBytes(ME12, SaveBytes(ME12, [CoalFile(name, [])])) != Ok([CoalFile(name, [])])
  {
    SaveLoadRoundTrip([CoalFile(name, [])]);
    assert ReloadedFiles([CoalFile(name, [])]) == [CoalFile(name, [CoalSection([], [])])] by {
      assert [CoalFile(name, [])][..0] == [];
    }
  }
}
