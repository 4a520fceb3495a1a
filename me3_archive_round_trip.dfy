/** The ME3 archive read back whole: what Load reads from the bytes Save
    writes is the document, every file, section and field name lower-cased
    by the string table and every value decoded from the Huffman data. */
module ME3ArchiveRoundTrip {
  import opened Wrappers
  import opened Primitives
  import opened ByteCodec
  import opened Document
  import opened ME3Layout
  import opened ME3RoundTrip

  // ---------------------------------------------------------------------
  // Names: the table's ids name the lower-cased names.

  /** The table knows name: the id of its lower-cased form fits in a
      ushort and is where that form sits. */
  predicate Knows(names: seq<Str>, ids: map<Str, int>, name: Str)
  {
    ToLower(name) in ids && 0 <= ids[ToLower(name)] < |names| <= 0x1_0000 && names[ids[ToLower(name)]] == ToLower(name)
  }

  /** The id written for a known name reads back as its lower-cased form. */
  lemma {:induction false} KnownName(names: seq<Str>, ids: map<Str, int>, name: Str)
    requires Knows(names, ids, name)
    ensures NameOf(names, IdOf(ids, name)) == Ok(ToLower(name))
  {
  }

  // ---------------------------------------------------------------------
  // A level: its count, its heads, then its blocks.

  /** One head: an id that names the item, then an offset that is read
      and dropped. */
  lemma {:induction false} HeadAt(names: seq<Str>, d: seq<byte>, q: nat, id: uint16, offset: int, name: Str)
    requires NameOf(names, id) == Ok(name)
    requires Stored(d, q, UInt16Bytes(id)) && Stored(d, q + 2, Int32Bytes(offset))
    ensures ReadHeadAt(names, d, q) == Ok((name, q + 6))
  {
    UShortAt(d, q, id);
    UIntAt(d, q + 2, offset);
  }

  /** The heads of a level read back as the names of its items. */
  lemma {:induction false} HeadsAt<T>(id: T -> uint16, enc: T -> seq<byte>, name: T -> Str, names: seq<Str>,
                                      xs: seq<T>, base: int, d: seq<byte>, q: nat)
    requires forall i :: 0 <= i < |xs| ==> NameOf(names, id(xs[i])) == Ok(name(xs[i]))
    requires Stored(d, q, Heads(id, enc, xs, base))
    ensures ReadCounted(HeadReader(names), d, q, |xs|, []) == Ok((MapSeq(name, xs), q + 6 * |xs|))
    decreases |xs|
  {
    if xs != [] {
      var init, last := xs[..|xs| - 1], xs[|xs| - 1];
      var a, offset := Heads(id, enc, init, base), base + |Concat(enc, init)|;
      StoredSplit3(d, q, a, UInt16Bytes(id(last)), Int32Bytes(offset));
      forall i | 0 <= i < |init|
        ensures NameOf(names, id(init[i])) == Ok(name(init[i]))
      {
        assert init[i] == xs[i];
      }
      HeadsAt(id, enc, name, names, init, base, d, q);
      HeadAt(names, d, q + |a|, id(last), offset, name(last));
      assert HeadReader(names)(d, q + |a|) == ReadHeadAt(names, d, q + |a|);
      ReadCountedSnoc(HeadReader(names), d, q, |init|, [], MapSeq(name, init), q + |a|, name(last), q + |a| + 6);
    }
  }

  /** The three pieces of a level, each where the one before ends. */
  lemma {:induction false} StoredParts(d: seq<byte>, p: nat, a: seq<byte>, b: seq<byte>, c: seq<byte>, q: nat, r: nat)
    requires Stored(d, p, a + b + c) && q == p + |a| && r == q + |b|
    ensures Stored(d, p, a) && Stored(d, q, b) && Stored(d, r, c)
  {
    StoredSplit3(d, p, a, b, c);
  }

  /** A level is its count, its heads and its blocks. */
  lemma {:induction false} LevelLength<T>(id: T -> uint16, enc: T -> seq<byte>, xs: seq<T>)
    ensures |Level(id, enc, xs)| == 2 + 6 * |xs| + |Concat(enc, xs)|
  {
  }

  /** A ushort read where the count was written. */
  lemma {:induction false} CountAt(d: seq<byte>, p: nat, u: uint16, n: uint16)
    requires Stored(d, p, UInt16Bytes(u)) && u == n
    ensures ReadUInt16At(d, p) == Ok((n, p + 2))
  {
    UShortAt(d, p, u);
  }

  /** The names of the items of a list, item by item. */
  lemma {:induction false} NamesOf<T>(id: T -> uint16, name: T -> Str, names: seq<Str>, ok: T -> bool, xs: seq<T>)
    requires forall x :: ok(x) ==> NameOf(names, id(x)) == Ok(name(x))
    requires forall x :: x in xs ==> ok(x)
    ensures forall i :: 0 <= i < |xs| ==> NameOf(names, id(xs[i])) == Ok(name(xs[i]))
  {
    forall i | 0 <= i < |xs|
      ensures NameOf(names, id(xs[i])) == Ok(name(xs[i]))
    {
      assert xs[i] in xs;
    }
  }

  /** A level's count and heads read back as its items' names, and its
      blocks follow them. */
  lemma {:induction false} LevelHeads<T>(id: T -> uint16, enc: T -> seq<byte>, name: T -> Str, names: seq<Str>,
                                         xs: seq<T>, d: seq<byte>, p: nat)
    requires |xs| < 0x1_0000
    requires forall i :: 0 <= i < |xs| ==> NameOf(names, id(xs[i])) == Ok(name(xs[i]))
    requires Stored(d, p, Level(id, enc, xs))
    ensures ReadUInt16At(d, p) == Ok((|xs|, p + 2))
    ensures ReadCounted(HeadReader(names), d, p + 2, |xs|, []) == Ok((MapSeq(name, xs), p + 2 + 6 * |xs|))
    ensures Stored(d, p + 2 + 6 * |xs|, Concat(enc, xs))
  {
    StoredParts(d, p, UInt16Bytes(|xs| % 0x1_0000), Heads(id, enc, xs, 6 * |xs| + 2), Concat(enc, xs),
                p + 2, p + 2 + 6 * |xs|);
    CountAt(d, p, |xs| % 0x1_0000, |xs|);
    HeadsAt(id, enc, name, names, xs, 6 * |xs| + 2, d, p + 2);
  }

  /** A result that is the same value ending at the same place. */
  lemma {:induction false} SameResult<T>(r: Result<(T, nat)>, r': Result<(T, nat)>, v: T, v': T, e: nat, e': nat)
    requires r == Ok((v, e))
    requires r' == r
    requires v' == v
    requires e' == e
    ensures r' == Ok((v', e'))
  {
  }

  /** A result that is the same value ending after the same bytes. */
  lemma {:induction false} SameEnd<T>(r: Result<(T, nat)>, r': Result<(T, nat)>, v: T, v': T, p: nat,
                                      b: seq<byte>, b': seq<byte>)
    requires r == Ok((v, p + |b|))
    requires r' == r
    requires v' == v
    requires b' == b
    ensures r' == Ok((v', p + |b'|))
  {
  }

  /** A level whose blocks read back one by one reads back as the items
      made from their names and blocks. */
  lemma {:induction false} LevelBack<T(!new), B, U>(id: T -> uint16, enc: T -> seq<byte>, name: T -> Str, names: seq<Str>,
                                                    body: (seq<byte>, nat) -> Result<(B, nat)>, ok: T -> bool, out: T -> B,
                                                    make: (Str, B) -> U, item: T -> U, xs: seq<T>, b: seq<byte>,
                                                    d: seq<byte>, p: nat)
    requires ReadsEach(body, enc, ok, out)
    requires forall x :: ok(x) ==> NameOf(names, id(x)) == Ok(name(x))
    requires forall x :: item(x) == make(name(x), out(x))
    requires |xs| < 0x1_0000 && (forall x :: x in xs ==> ok(x))
    requires b == Level(id, enc, xs) && Stored(d, p, b)
    ensures ReadLevelAt(body, make, names, d, p) == Ok((MapSeq(item, xs), p + |b|))
  {
    LevelRead(id, enc, name, names, body, ok, out, make, xs, d, p);
    ZipMap(make, name, out, item, xs);
    LevelLength(id, enc, xs);
    SameResult(ReadLevelAt(body, make, names, d, p), ReadLevelAt(body, make, names, d, p),
               Zip(make, MapSeq(name, xs), MapSeq(out, xs)), MapSeq(item, xs),
               p + 2 + 6 * |xs| + |Concat(enc, xs)|, p + |b|);
  }

  /** A level reads back as its names joined with its blocks. */
  lemma {:induction false} LevelRead<T(!new), B, U>(id: T -> uint16, enc: T -> seq<byte>, name: T -> Str, names: seq<Str>,
                                                    body: (seq<byte>, nat) -> Result<(B, nat)>, ok: T -> bool, out: T -> B,
                                                    make: (Str, B) -> U, xs: seq<T>, d: seq<byte>, p: nat)
    requires ReadsEach(body, enc, ok, out)
    requires forall x :: ok(x) ==> NameOf(names, id(x)) == Ok(name(x))
    requires |xs| < 0x1_0000 && (forall x :: x in xs ==> ok(x))
    requires Stored(d, p, Level(id, enc, xs))
    ensures ReadLevelAt(body, make, names, d, p)
         == Ok((Zip(make, MapSeq(name, xs), MapSeq(out, xs)), p + 2 + 6 * |xs| + |Concat(enc, xs)|))
  {
    NamesOf(id, name, names, ok, xs);
    LevelHeads(id, enc, name, names, xs, d, p);
    AllOkOf(ok, xs);
    ReadAll(body, enc, ok, out, d, p + 2 + 6 * |xs|, xs);
    LevelFrom(body, make, names, d, p, |xs|, MapSeq(name, xs), MapSeq(out, xs), p + 2 + 6 * |xs| + |Concat(enc, xs)|);
  }

  /** The three reads of a level, each where the one before stopped. */
  lemma {:induction false} LevelFrom<B, U>(body: (seq<byte>, nat) -> Result<(B, nat)>, make: (Str, B) -> U,
                                          names: seq<Str>, d: seq<byte>, p: nat, n: uint16, heads: seq<Str>,
                                          bodies: seq<B>, e: nat)
    requires |heads| == |bodies| == n
    requires ReadUInt16At(d, p) == Ok((n, p + 2))
    requires ReadCounted(HeadReader(names), d, p + 2, n, []) == Ok((heads, p + 2 + 6 * n))
    requires ReadCounted(body, d, p + 2 + 6 * n, n, []) == Ok((bodies, e))
    ensures ReadLevelAt(body, make, names, d, p) == Ok((Zip(make, heads, bodies), e))
  {
  }

  /** Joining the names and the blocks of the same items item by item. */
  lemma {:induction false} ZipMap<T, B, U>(make: (Str, B) -> U, name: T -> Str, out: T -> B, item: T -> U, xs: seq<T>)
    requires forall x :: item(x) == make(name(x), out(x))
    ensures Zip(make, MapSeq(name, xs), MapSeq(out, xs)) == MapSeq(item, xs)
    decreases |xs|
  {
    if xs != [] {
      var init := xs[..|xs| - 1];
      ZipMap(make, name, out, item, init);
      assert MapSeq(name, xs)[..|xs| - 1] == MapSeq(name, init);
      assert MapSeq(out, xs)[..|xs| - 1] == MapSeq(out, init);
    }
  }

  /** Items that pass ok one by one pass it as a list. */
  lemma {:induction false} AllOkOf<T>(ok: T -> bool, xs: seq<T>)
    requires forall x :: x in xs ==> ok(x)
    ensures AllOk(ok, xs)
    decreases |xs|
  {
    if xs != [] {
      AllOkOf(ok, xs[..|xs| - 1]);
    }
  }

  // ---------------------------------------------------------------------
  // A field's block: its words.

  function AnyWord(u: uint32): bool { true }

  function SameWord(u: uint32): uint32 { u }

  lemma {:induction false} SameWords(ws: seq<uint32>)
    ensures MapSeq(SameWord, ws) == ws && AllOk(AnyWord, ws)
    decreases |ws|
  {
    if ws != [] {
      SameWords(ws[..|ws| - 1]);
    }
  }

  lemma {:induction false} WordsReadBack()
    ensures ReadsEach(ReadUInt32At, UInt32Bytes, AnyWord, SameWord)
  {
    forall u: uint32, d: seq<byte>, q: nat | AnyWord(u) && Stored(d, q, UInt32Bytes(u))
      ensures ReadUInt32At(d, q) == Ok((SameWord(u), q + |UInt32Bytes(u)|))
    {
      assert Int32Bytes(u) == UInt32Bytes(u);
      UIntOfAt(d, q, u);
    }
  }

  /** A field's block reads back as its words. */
  lemma {:induction false} WordsAt(ws: seq<uint32>, d: seq<byte>, q: nat)
    requires |ws| < 0x1_0000 && Stored(d, q, WordsBytes(ws))
    ensures ReadWordsAt(d, q) == Ok((ws, q + |WordsBytes(ws)|))
  {
    StoredSplit(d, q, UInt16Bytes(|ws| % 0x1_0000), Concat(UInt32Bytes, ws));
    assert |ws| % 0x1_0000 == |ws|;
    UShortAt(d, q, |ws|);
    WordsReadBack();
    SameWords(ws);
    ReadAll(ReadUInt32At, UInt32Bytes, AnyWord, SameWord, d, q + 2, ws);
  }

  // ---------------------------------------------------------------------
  // What each level reads back as.

  function FieldName(f: CoalField): Str { ToLower(f.name) }

  function SectionName(s: CoalSection): Str { ToLower(s.name) }

  function FileName(f: CoalFile): Str { ToLower(f.fileName) }

  function FieldWordsOf(positions: map<Str, int>): CoalField -> seq<uint32>
  {
    (f: CoalField) => Words(positions, f.values)
  }

  /** A field as ReadTree leaves it: its lower-cased name, its words. */
  function FieldWords(positions: map<Str, int>): CoalField -> WordField
  {
    (f: CoalField) => WordField(ToLower(f.name), Words(positions, f.values))
  }

  function SectionFieldsOf(positions: map<Str, int>): CoalSection -> seq<WordField>
  {
    (s: CoalSection) => MapSeq(FieldWords(positions), s.fields)
  }

  function SectionWords(positions: map<Str, int>): CoalSection -> WordSection
  {
    (s: CoalSection) => WordSection(ToLower(s.name), MapSeq(FieldWords(positions), s.fields))
  }

  function FileSectionsOf(positions: map<Str, int>): CoalFile -> seq<WordSection>
  {
    (f: CoalFile) => MapSeq(SectionWords(positions), f.sections)
  }

  /** A file as ReadTree leaves it. */
  function FileWords(positions: map<Str, int>): CoalFile -> WordFile
  {
    (f: CoalFile) => WordFile(ToLower(f.fileName), MapSeq(SectionWords(positions), f.sections))
  }

  /** What WriteTree can write and ReadTree read back: every count fits
      in a ushort and every name is known to the table. */
  predicate FieldFits(names: seq<Str>, ids: map<Str, int>, f: CoalField)
  {
    Knows(names, ids, f.name) && |f.values| < 0x1_0000
  }

  predicate SectionFits(names: seq<Str>, ids: map<Str, int>, s: CoalSection)
  {
    Knows(names, ids, s.name) && |s.fields| < 0x1_0000 && forall f :: f in s.fields ==> FieldFits(names, ids, f)
  }

  predicate FileFits(names: seq<Str>, ids: map<Str, int>, fl: CoalFile)
  {
    Knows(names, ids, fl.fileName) && |fl.sections| < 0x1_0000
    && forall s :: s in fl.sections ==> SectionFits(names, ids, s)
  }

  predicate TreeFits(names: seq<Str>, ids: map<Str, int>, files: seq<CoalFile>)
  {
    |files| < 0x1_0000 && forall fl :: fl in files ==> FileFits(names, ids, fl)
  }

  function FieldOk(names: seq<Str>, ids: map<Str, int>): CoalField -> bool
  {
    (f: CoalField) => FieldFits(names, ids, f)
  }

  /** A field's block, wherever it sits, reads back as its words. */
  lemma {:induction false} FieldBlocksReadBack(names: seq<Str>, ids: map<Str, int>, positions: map<Str, int>)
    ensures ReadsEach(ReadWordsAt, FieldBlock(positions), FieldOk(names, ids), FieldWordsOf(positions))
  {
    forall f: CoalField, d: seq<byte>, q: nat | FieldOk(names, ids)(f) && Stored(d, q, FieldBlock(positions)(f))
      ensures ReadWordsAt(d, q) == Ok((FieldWordsOf(positions)(f), q + |FieldBlock(positions)(f)|))
    {
      WordsAt(Words(positions, f.values), d, q);
    }
  }

  function SectionOk(names: seq<Str>, ids: map<Str, int>): CoalSection -> bool
  {
    (s: CoalSection) => SectionFits(names, ids, s)
  }

  function FileOk(names: seq<Str>, ids: map<Str, int>): CoalFile -> bool
  {
    (fl: CoalFile) => FileFits(names, ids, fl)
  }

  /** A level that is the block of an outer item s reads back as s's
      children. */
  lemma {:induction false} LevelBackOf<S, T(!new), B, U>(id: T -> uint16, enc: T -> seq<byte>, name: T -> Str,
                                                         names: seq<Str>, body: (seq<byte>, nat) -> Result<(B, nat)>,
                                                         ok: T -> bool, out: T -> B, make: (Str, B) -> U, item: T -> U,
                                                         children: S -> seq<T>, block: S -> seq<byte>,
                                                         reader: (seq<byte>, nat) -> Result<(seq<U>, nat)>,
                                                         outerOk: S -> bool, outerOut: S -> seq<U>, s: S, d: seq<byte>, q: nat)
    requires ReadsEach(body, enc, ok, out)
    requires forall x :: ok(x) ==> NameOf(names, id(x)) == Ok(name(x))
    requires forall x :: item(x) == make(name(x), out(x))
    requires forall o :: block(o) == Level(id, enc, children(o))
    requires forall e, r :: reader(e, r) == ReadLevelAt(body, make, names, e, r)
    requires forall o :: outerOk(o) ==> |children(o)| < 0x1_0000 && forall x :: x in children(o) ==> ok(x)
    requires forall o :: outerOut(o) == MapSeq(item, children(o))
    requires outerOk(s)
    requires Stored(d, q, block(s))
    ensures reader(d, q) == Ok((outerOut(s), q + |block(s)|))
  {
    LevelBack(id, enc, name, names, body, ok, out, make, item, children(s), block(s), d, q);
    SameEnd(ReadLevelAt(body, make, names, d, q), reader(d, q), MapSeq(item, children(s)), outerOut(s),
            q, block(s), block(s));
  }

  /** Levels that are blocks of an outer item read back one by one, as
      the outer item's children, wherever they sit. */
  lemma {:induction false} LevelsBack<S(!new), T(!new), B, U>(id: T -> uint16, enc: T -> seq<byte>, name: T -> Str,
                                                              names: seq<Str>, body: (seq<byte>, nat) -> Result<(B, nat)>,
                                                              ok: T -> bool, out: T -> B, make: (Str, B) -> U, item: T -> U,
                                                              children: S -> seq<T>, block: S -> seq<byte>,
                                                              reader: (seq<byte>, nat) -> Result<(seq<U>, nat)>,
                                                              outerOk: S -> bool, outerOut: S -> seq<U>)
    requires ReadsEach(body, enc, ok, out)
    requires forall x :: ok(x) ==> NameOf(names, id(x)) == Ok(name(x))
    requires forall x :: item(x) == make(name(x), out(x))
    requires forall s :: block(s) == Level(id, enc, children(s))
    requires forall d, q :: reader(d, q) == ReadLevelAt(body, make, names, d, q)
    requires forall s :: outerOk(s) ==> |children(s)| < 0x1_0000 && forall x :: x in children(s) ==> ok(x)
    requires forall s :: outerOut(s) == MapSeq(item, children(s))
    ensures ReadsEach(reader, block, outerOk, outerOut)
  {
    forall s: S, d: seq<byte>, q: nat | outerOk(s) && Stored(d, q, block(s))
      ensures reader(d, q) == Ok((outerOut(s), q + |block(s)|))
    {
      LevelBackOf(id, enc, name, names, body, ok, out, make, item, children, block, reader, outerOk, outerOut, s, d, q);
    }
  }

  /** A section's block, the level of its fields, reads back as its
      fields with their words, wherever it sits. */
  lemma {:induction false} SectionBlocksReadBack(names: seq<Str>, ids: map<Str, int>, positions: map<Str, int>)
    ensures ReadsEach(FieldsReader(names), SectionBlock(ids, positions), SectionOk(names, ids), SectionFieldsOf(positions))
  {
    FieldBlocksReadBack(names, ids, positions);
    forall f | FieldOk(names, ids)(f)
      ensures NameOf(names, FieldId(ids)(f)) == Ok(FieldName(f))
    {
      KnownName(names, ids, f.name);
    }
    LevelsBack(FieldId(ids), FieldBlock(positions), FieldName, names, ReadWordsAt, FieldOk(names, ids),
               FieldWordsOf(positions), MakeField, FieldWords(positions), (s: CoalSection) => s.fields,
               SectionBlock(ids, positions), FieldsReader(names), SectionOk(names, ids), SectionFieldsOf(positions));
  }

  /** A file's block, the level of its sections, reads back as its
      sections with their fields, wherever it sits. */
  lemma {:induction false} FileBlocksReadBack(names: seq<Str>, ids: map<Str, int>, positions: map<Str, int>)
    ensures ReadsEach(SectionsReader(names), FileBlock(ids, positions), FileOk(names, ids), FileSectionsOf(positions))
  {
    SectionBlocksReadBack(names, ids, positions);
    forall s | SectionOk(names, ids)(s)
      ensures NameOf(names, SectionId(ids)(s)) == Ok(SectionName(s))
    {
      KnownName(names, ids, s.name);
    }
    LevelsBack(SectionId(ids), SectionBlock(ids, positions), SectionName, names, FieldsReader(names), SectionOk(names, ids),
               SectionFieldsOf(positions), MakeSection, SectionWords(positions), (fl: CoalFile) => fl.sections,
               FileBlock(ids, positions), SectionsReader(names), FileOk(names, ids), FileSectionsOf(positions));
  }

  /** The tree is the level of the files. */
  lemma {:induction false} TreeIsLevel(ids: map<Str, int>, positions: map<Str, int>, files: seq<CoalFile>)
    ensures TreeBytes(ids, positions, files) == Level(FileId(ids), FileBlock(ids, positions), files)
  {
  }

  /** ReadTree reads the level of the files. */
  lemma {:induction false} TreeReadIsLevel(names: seq<Str>, d: seq<byte>, p: nat)
    ensures ReadTreeAt(names, d, p) == ReadLevelAt(SectionsReader(names), MakeFile, names, d, p)
  {
  }

  /** What the level of the files needs: each file's block reads back,
      each file's name is known, and a file read back is its name and its
      sections. */
  lemma {:induction false} FileLevelFacts(names: seq<Str>, ids: map<Str, int>, positions: map<Str, int>)
    ensures ReadsEach(SectionsReader(names), FileBlock(ids, positions), FileOk(names, ids), FileSectionsOf(positions))
    ensures forall fl :: FileOk(names, ids)(fl) ==> NameOf(names, FileId(ids)(fl)) == Ok(FileName(fl))
    ensures forall fl :: FileWords(positions)(fl) == MakeFile(FileName(fl), FileSectionsOf(positions)(fl))
  {
    FileBlocksReadBack(names, ids, positions);
    forall fl | FileOk(names, ids)(fl)
      ensures NameOf(names, FileId(ids)(fl)) == Ok(FileName(fl))
    {
      KnownName(names, ids, fl.fileName);
    }
  }

  lemma {:induction false} FilesOk(names: seq<Str>, ids: map<Str, int>, files: seq<CoalFile>)
    requires TreeFits(names, ids, files)
    ensures |files| < 0x1_0000 && forall fl :: fl in files ==> FileOk(names, ids)(fl)
  {
  }

  /** The tree as ReadTree leaves it: each file's name and its sections. */
  function TreeWords(positions: map<Str, int>, files: seq<CoalFile>): seq<WordFile>
  {
    MapSeq(FileWords(positions), files)
  }

  lemma {:induction false} TreeWordsAre(positions: map<Str, int>, files: seq<CoalFile>)
    ensures TreeWords(positions, files) == MapSeq(FileWords(positions), files)
  {
  }

  /** The level of the files reads back as the files' names and sections. */
  lemma {:induction false} FileLevelBack(names: seq<Str>, ids: map<Str, int>, positions: map<Str, int>,
                                         files: seq<CoalFile>, d: seq<byte>, p: nat, tr: seq<byte>)
    requires |files| < 0x1_0000 && forall fl :: fl in files ==> FileOk(names, ids)(fl)
    requires tr == TreeBytes(ids, positions, files) && Stored(d, p, tr)
    ensures ReadLevelAt(SectionsReader(names), MakeFile, names, d, p) == Ok((MapSeq(FileWords(positions), files), p + |tr|))
  {
    TreeIsLevel(ids, positions, files);
    FileLevelFacts(names, ids, positions);
    LevelBack(FileId(ids), FileBlock(ids, positions), FileName, names, SectionsReader(names), FileOk(names, ids),
              FileSectionsOf(positions), MakeFile, FileWords(positions), files, tr, d, p);
  }

  /** The tree of files that pass FileOk reads back. */
  lemma {:induction false} TreeBack(names: seq<Str>, ids: map<Str, int>, positions: map<Str, int>,
                                    files: seq<CoalFile>, d: seq<byte>, p: nat, tr: seq<byte>)
    requires |files| < 0x1_0000 && forall fl :: fl in files ==> FileOk(names, ids)(fl)
    requires tr == TreeBytes(ids, positions, files) && Stored(d, p, tr)
    ensures ReadTreeAt(names, d, p) == Ok((TreeWords(positions, files), p + |tr|))
  {
    FileLevelBack(names, ids, positions, files, d, p, tr);
    TreeReadIsLevel(names, d, p);
    TreeWordsAre(positions, files);
  }

  /** ReadTree reads back the tree WriteTree wrote: each name as the table
      holds it, lower-cased, and each value as its word. */
  lemma {:induction false} TreeRoundTrip(names: seq<Str>, ids: map<Str, int>, positions: map<Str, int>,
                                         files: seq<CoalFile>, d: seq<byte>, p: nat, tr: seq<byte>)
    requires TreeFits(names, ids, files)
    requires tr == TreeBytes(ids, positions, files) && Stored(d, p, tr)
    ensures ReadTreeAt(names, d, p) == Ok((TreeWords(positions, files), p + |tr|))
  {
    FilesOk(names, ids, files);
    TreeBack(names, ids, positions, files, d, p, tr);
  }
}
