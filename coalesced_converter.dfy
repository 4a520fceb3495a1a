/** CoalescedConverter: the oldest converter, for ME1/2 LE archives. Decode
    writes an archive out as INI lines, `[file|section]` headers and
    `name=value` items with the values escaped; Encode parses such lines
    into an EncDoc and writes the archive. Its reads go through
    FileStream.ReadByte and never hit an end of stream. */
module CoalescedConversion {
  import opened Wrappers
  import opened Primitives
  import opened ByteCodec
  import opened StringCodec
  import opened Document
  import opened EncDocument
  import opened CoalescedCodec
  import Ini
  import ME12LE
  import ME12LERoundTrip

  /** The archive layout as this converter reads and writes it: the ME1/2
      LE layout, read without end-of-stream errors. */
  const Loose: ME12LE.Layout := ME12LE.Layout(LooseStringAt, EncodeME12, LooseReadInt, Int32Bytes, ME12LE.Storable)

  lemma LooseStringsReadBack()
    ensures ME12LERoundTrip.StringsReadBack(Loose)
  {
    assert Loose.readString == LooseStringAt && Loose.writeString == EncodeME12 && Loose.keeps == ME12LE.Storable;
    forall s: Str, d: seq<byte>, q: nat | Loose.keeps(s) && Stored(d, q, Loose.writeString(s))
      ensures Loose.readString(d, q) == Ok((s, q + |Loose.writeString(s)|))
    {
      LooseReadsBackAt(s, d, q);
    }
  }

  lemma LooseReadsBackAt(s: Str, d: seq<byte>, q: nat)
    requires Loose.keeps(s) && Stored(d, q, Loose.writeString(s))
    ensures Loose.readString(d, q) == Ok((s, q + |Loose.writeString(s)|))
  {
    LooseReadsBack(d, q, s);
  }

  lemma LooseIntsReadBack()
    ensures ME12LERoundTrip.IntsReadBack(Loose)
  {
    forall v: int32, d: seq<byte>, q: nat | Stored(d, q, Loose.writeInt(v))
      ensures Loose.readInt(d, q) == Ok((v, q + |Loose.writeInt(v)|))
    {
      StoredSlice(d, q, Int32Bytes(v));
      ReadInt32Of(d, q, v);
    }
  }

  /** The archive round trip holds for this converter's reads too. */
  lemma LooseRoundTrip(files: seq<CoalFile>)
    requires ME12LERoundTrip.Storables(Loose, files)
    ensures ME12LE.LoadBytes(Loose, ME12LE.SaveBytes(Loose, files)) == Ok(ME12LERoundTrip.ReloadedFiles(files))
  {
    LooseStringsReadBack();
    LooseIntsReadBack();
    ME12LERoundTrip.LayoutRoundTrip(Loose, files);
  }

  // ---------------------------------------------------------------------
  // What Decode and Encode compute.

  /** `Decode`: the INI lines of an archive, or the exception. The loops
      read exactly what the ME1/2 LE Load reads; a file whose section
      count is not positive is read as one empty section named "", whose
      header line is the `[file|]` Decode writes for it. */
  function DecodeLines(d: seq<byte>): Result<seq<Str>>
  {
    var files :- ME12LE.LoadBytes(Loose, d);
    Ok(Text(Events(files)))
  }

  /** Encode's read loop from line i on (line numbers count from 1), with
      the builder b: the document, or the first exception. */
  function ParseFrom(lines: seq<Str>, i: nat, b: Building): (r: Result<Building>)
    requires i <= |lines| && b.Valid()
    ensures r.Ok? ==> r.value.Valid()
    decreases |lines| - i
  {
    if i == |lines| then Ok(b)
    else
      var e :- ParseLine(lines[i], i + 1);
      match e
      case None => ParseFrom(lines, i + 1, b)
      case Some(Header(fileName, sectionName)) => ParseFrom(lines, i + 1, OnHeader(b, fileName, sectionName))
      case Some(Value(name, value)) =>
        match OnField(b, name, value)
        case None => Err(IniNoCurrentSection(i + 1))
        case Some(b') => ParseFrom(lines, i + 1, b')
  }

  /** `Encode`: the archive of the INI lines, or the first exception, in
      which case nothing is written. */
  function EncodeBytes(lines: seq<Str>): Result<seq<byte>>
  {
    var b :- ParseFrom(lines, 0, Empty);
    Ok(ME12LE.SaveBytes(Loose, Lift(b.files)))
  }

  // ---------------------------------------------------------------------
  // Round trips.

  predicate AllParse(events: seq<Event>)
  {
    forall i :: 0 <= i < |events| ==> Parses(events[i])
  }

  /** Parsing the lines of events that all parse drives the builder as the
      events do. */
  lemma {:induction false} ParseText(pre: seq<Str>, events: seq<Event>, b: Building)
    requires b.Valid() && AllParse(events) && Rebuild(events, b).Some?
    ensures ParseFrom(pre + Text(events), |pre|, b) == Ok(Rebuild(events, b).value)
    decreases |events|
  {
    var lines := pre + Text(events);
    if events == [] {
      assert |lines| == |pre|;
    } else {
      var e := events[0];
      assert lines[|pre|] == EventText(e);
      EventParses(e, |pre| + 1);
      var pre' := pre + [EventText(e)];
      assert lines == pre' + Text(events[1..]);
      AllParseTail(events);
      match e
      case Header(fileName, sectionName) =>
        ParseText(pre', events[1..], OnHeader(b, fileName, sectionName));
      case Value(name, value) =>
        ParseText(pre', events[1..], OnField(b, name, value).value);
    }
  }

  lemma AllParseTail(events: seq<Event>)
    requires events != [] && AllParse(events)
    ensures AllParse(events[1..])
  {
    forall i | 0 <= i < |events[1..]| ensures Parses(events[1..][i]) {
      assert events[1..][i] == events[i + 1];
    }
  }

  /** Reloading a lifted document gives back its events: a file without
      sections comes back with the one empty section whose header is the
      file's own `[file|]` line. */
  lemma {:induction false} ReloadedEvents(doc: seq<EncFile>)
    ensures Events(ME12LERoundTrip.ReloadedFiles(Lift(doc))) == EncEvents(doc)
    decreases |doc|
  {
    if doc != [] {
      var init, last := doc[..|doc| - 1], doc[|doc| - 1];
      ReloadedEvents(init);
      var lifted := Lift(doc);
      assert lifted[..|lifted| - 1] == Lift(init);
      var file := ME12LERoundTrip.Reloaded(LiftFile(last));
      var reloaded := ME12LERoundTrip.ReloadedFiles(lifted);
      assert reloaded == ME12LERoundTrip.ReloadedFiles(Lift(init)) + [file];
      assert reloaded[..|reloaded| - 1] == ME12LERoundTrip.ReloadedFiles(Lift(init));
      if last.sections == [] {
        assert FileEvents(file.fileName, file.sections) == [Header(last.fileName, [])] by {
          assert file.sections[..0] == [];
        }
      } else {
        LiftSectionsSplit(last.fileName, last.sections);
      }
    }
  }

  /** Decode writes the lines of the document whose archive it reads. */
  lemma DecodeSaved(doc: seq<EncFile>)
    requires ME12LERoundTrip.Storables(Loose, Lift(doc))
    ensures DecodeLines(ME12LE.SaveBytes(Loose, Lift(doc))) == Ok(Text(EncEvents(doc)))
  {
    LooseRoundTrip(Lift(doc));
    ReloadedEvents(doc);
  }

  /** Encode writes the archive of the document whose lines it parses. */
  lemma EncodeText(doc: seq<EncFile>)
    requires Buildable(doc) && AllParse(EncEvents(doc))
    ensures EncodeBytes(Text(EncEvents(doc))) == Ok(ME12LE.SaveBytes(Loose, Lift(doc)))
  {
    RebuildFiles(doc);
    ParseText([], EncEvents(doc), Empty);
    assert [] + Text(EncEvents(doc)) == Text(EncEvents(doc));
  }

  /** Decode then Encode gives back the archive Encode wrote, and Encode
      then Decode the lines Decode wrote, for every document that has a
      header per file and a name per section, whose names the INI lines
      can hold and whose strings the archive can. */
  lemma RoundTrip(doc: seq<EncFile>)
    requires Buildable(doc) && AllParse(EncEvents(doc)) && ME12LERoundTrip.Storables(Loose, Lift(doc))
    ensures var d := ME12LE.SaveBytes(Loose, Lift(doc));
            DecodeLines(d) == Ok(Text(EncEvents(doc))) && EncodeBytes(Text(EncEvents(doc))) == Ok(d)
  {
    DecodeSaved(doc);
    EncodeText(doc);
  }

  /** An empty stream is no error: the file count reads as -1, so no
      file is read and no line written, where the ME1/2 LE Load fails. */
  lemma DecodeEmpty()
    ensures DecodeLines([]) == Ok([])
    ensures ME12LE.LoadBytes(ME12LE.ME12, []) == Err(EndOfStream)
  {
    ReadPastEnd([]);
    assert Events([]) == [];
  }

  /** A field line before any header is refused with its line number. */
  lemma FieldBeforeHeader(name: Str, value: Str)
    requires Parses(Value(name, value))
    ensures EncodeBytes([ItemText(name, value)]) == Err(IniNoCurrentSection(1))
  {
    ItemParses(name, value, 1);
  }

  /** A header without a file name is refused with its line number. */
  lemma HeaderWithoutFile(sectionName: Str)
    requires forall k :: 0 <= k < |sectionName| ==> !IsBracket(sectionName[k])
    ensures EncodeBytes([HeaderText([], sectionName)]) == Err(IniNoCurrentFile(1))
  {
    var header := HeaderText([], sectionName);
    var name := [Pipe] + sectionName;
    assert ParseLine(header, 1) == Err(IniNoCurrentFile(1)) by {
      assert header[0] == OpenBracket;
      assert !Ini.Skipped(header);
      HeaderNameMatches(sectionName);
      assert Ini.IndexOf(name, Pipe) == 0 by {
        assert name[0] == Pipe;
      }
    }
  }

  lemma HeaderNameMatches(sectionName: Str)
    requires forall k :: 0 <= k < |sectionName| ==> !IsBracket(sectionName[k])
    ensures SectionMatch(HeaderText([], sectionName)) == Some([Pipe] + sectionName)
  {
    var header := HeaderText([], sectionName);
    var name := [Pipe] + sectionName;
    assert header == [OpenBracket] + name + [CloseBracket];
    forall m | 0 <= m < |name| ensures !IsBracket(name[m]) {
      if m > 0 {
        assert name[m] == sectionName[m - 1];
      }
    }
    BracketFreePrefix(name, [CloseBracket]);
    assert header[1..] == name + [CloseBracket];
    assert header[1..1 + |name|] == name;
  }

  // ---------------------------------------------------------------------
  // The converter.

  /** The converter over its FileStream `_bin`: the stream's bytes and its
      position. */
  class CoalescedConverter {
    var data: seq<byte>
    var pos: nat

    ghost predicate Valid()
      reads this
    {
      pos <= |data|
    }

    constructor ()
      ensures Valid() && data == [] && pos == 0
    {
      data := [];
      pos := 0;
    }

    /** `_bin.ReadByte()`: the byte at the position and one step on, or -1
        and no move at the end. */
    method ReadByte() returns (b: int)
      requires Valid()
      modifies this
      ensures Valid() && data == old(data)
      ensures b == ByteOrEnd(data, old(pos)) && pos == Skip(data, old(pos), 1)
    {
      if pos < |data| {
        b := data[pos];
        pos := pos + 1;
      } else {
        b := -1;
      }
    }

    /** `ReadInt`: four ReadByte calls ORed together. */
    method ReadInt() returns (value: int32)
      requires Valid()
      modifies this
      ensures Valid() && data == old(data)
      ensures (value, pos) == LooseInt32At(data, old(pos))
    {
      var b0 := ReadByte();
      var b1 := ReadByte();
      var b2 := ReadByte();
      var b3 := ReadByte();
      value := Or4(b0, b1, b2, b3);
    }

    /** `ReadString`. */
    method ReadString() returns (r: Result<Str>)
      requires Valid()
      modifies this
      ensures Valid() && data == old(data)
      ensures Follows(r, pos, LooseStringAt(data, old(pos)))
    {
      ghost var start := pos;
      var len := ReadInt();
      if len > 0 {
        return Err(CoalescedRead(PositivePrefix(len)));
      }
      ghost var afterPrefix := pos;
      var sb := ReadChars(Wrap32(-(len as int)));
      StringRead(data, start, len, afterPrefix, sb, pos);
      r := Ok(TrimNul(sb));
    }

    /** ReadString's char loop: up to n chars, stopping after a NUL. */
    method ReadChars(n: int) returns (sb: Str)
      requires Valid()
      modifies this
      ensures Valid() && data == old(data)
      ensures (sb, pos) == LooseUnits(data, old(pos), n)
    {
      ghost var all := LooseUnits(data, pos, n);
      sb := [];
      var i := 0;
      assert all.0 == sb + all.0;
      while i < n
        invariant Valid() && data == old(data) && 0 <= i
        invariant n > 0 ==> i <= n
        invariant all.0 == sb + LooseUnits(data, pos, n - i).0 && all.1 == LooseUnits(data, pos, n - i).1
        decreases n - i
      {
        ghost var p := pos;
        var lo := ReadByte();
        var hi := ReadByte();
        var ch := CharOf(lo, hi);
        if ch == NUL {
          assert LooseUnits(data, p, n - i) == ([], pos);
          assert sb + [] == sb;
          break;
        }
        ghost var rest := LooseUnits(data, pos, n - i - 1);
        assert LooseUnits(data, p, n - i).0 == [ch] + rest.0;
        assert sb + ([ch] + rest.0) == (sb + [ch]) + rest.0;
        sb := sb + [ch];
        i := i + 1;
      }
      assert sb + [] == sb;
    }

    /** `WriteInt`: the four little-endian bytes, appended. */
    method WriteInt(value: int32)
      requires Valid() && pos == |data|
      modifies this
      ensures Valid() && pos == |data| && data == old(data) + Int32Bytes(value)
    {
      data := data + Int32Bytes(value);
      pos := |data|;
    }

    /** `WriteString`: the negated length with the NUL, the UTF-16 units,
        then the NUL; an empty string is the count 0 alone. */
    method WriteString(str: Str)
      requires Valid() && pos == |data|
      modifies this
      ensures Valid() && pos == |data| && data == old(data) + EncodeME12(str)
    {
      if |str| == 0 {
        WriteInt(0);
      } else {
        WriteInt(Wrap32(-(|str| + 1)));
        Int32BytesWrap(-(|str| + 1));
        ghost var h := data;
        var i := 0;
        while i < |str|
          invariant 0 <= i <= |str|
          invariant Valid() && pos == |data| && data == h + Utf16Units(str[..i])
        {
          Utf16UnitsSnoc(str, i);
          data := data + [LowByte(str[i]), HighByte(str[i])];
          pos := |data|;
          i := i + 1;
        }
        data := data + [0, 0];
        pos := |data|;
        assert str[..i] == str;
      }
    }

    /** `IniEncode`. */
    method IniEncode(str: Str) returns (r: Str)
      ensures r == EscapedValue(str)
    {
      r := [];
      var i := 0;
      while i < |str|
        invariant 0 <= i <= |str|
        invariant r + EscapedValue(str[i..]) == EscapedValue(str)
      {
        var ch := str[i];
        var e: Str;
        if ch == Backslash {
          e := [Backslash, Backslash];
        } else if ch == Tab {
          e := [Backslash, LowerT];
        } else if ch == CR {
          e := [Backslash, LowerR];
        } else if ch == LF {
          e := [Backslash, LowerN];
        } else if ch < 0x20 || ch > 0x7E {
          e := [Backslash, LowerX] + Hex4(ch);
        } else {
          e := [ch];
        }
        EscapeStep(r, str, i);
        r := r + e;
        i := i + 1;
      }
    }

    /** `IniDecode`. */
    method IniDecode(str: Str) returns (r: Str)
      ensures r == UnescapedValue(str)
    {
      r := [];
      var pos := 0;
      var len := |str|;
      while pos < len
        invariant 0 <= pos <= len
        invariant r + UnescapedValue(str[pos..]) == UnescapedValue(str)
      {
        ghost var start := pos;
        DecodeAt(str, pos);
        var ch := str[pos];
        var c: Char16;
        if ch == Backslash && pos + 1 < len {
          var next := str[pos + 1];
          if next == Backslash {
            c := Backslash;
            pos := pos + 1;
          } else if next == LowerT {
            c := Tab;
            pos := pos + 1;
          } else if next == LowerR {
            c := CR;
            pos := pos + 1;
          } else if next == LowerN {
            c := LF;
            pos := pos + 1;
          } else if next == LowerX {
            if pos + 5 < len && ParseHex4(str[pos + 2..pos + 6]).Some? {
              c := ParseHex4(str[pos + 2..pos + 6]).value;
              pos := pos + 5;
            } else {
              c := Backslash;
            }
          } else {
            c := Backslash;
          }
        } else {
          c := ch;
        }
        pos := pos + 1;
        UnescapeStep(r, str, start, c, pos);
        r := r + [c];
      }
    }

    // Decode, loop by loop. Each returns the lines it writes, or the
    // exception, and is tied to the reader it runs.

    /** The item loop of a section. */
    method DecodeItems(numItems: int32) returns (r: Result<seq<Str>>)
      requires Valid()
      modifies this
      ensures Valid() && data == old(data)
      ensures Renders(r, pos, ME12LE.ReadPairs(Loose, data, old(pos), numItems, []), FieldsEvents)
    {
      ghost var spec := ME12LE.ReadPairs(Loose, data, pos, numItems, []);
      ghost var fields: seq<CoalField> := [];
      ghost var left: int := numItems;
      var lines: seq<Str> := [];
      var i := 0;
      while i < numItems
        invariant Valid() && data == old(data)
        invariant left == numItems - i && ME12LE.ReadPairs(Loose, data, pos, left, fields) == spec
        invariant lines == Text(FieldsEvents(fields))
        decreases left
      {
        var str :- ReadString();
        var str2 :- ReadString();
        var value := IniEncode(str2);
        ItemLine(fields, str, str2);
        lines := lines + [str + [EqualsSign] + value];
        fields := fields + [CoalField(str, [str2])];
        i := i + 1;
        left := left - 1;
      }
      return Ok(lines);
    }

    /** One section: its name, its header line, its item count, then the
        item loop. */
    method DecodeSection(fileName: Str) returns (r: Result<seq<Str>>)
      requires Valid()
      modifies this
      ensures Valid() && data == old(data)
      ensures Renders(r, pos, ME12LE.ReadSection(Loose, data, old(pos)), (s: CoalSection) => SectionEvents(fileName, s))
    {
      var sectionName :- ReadString();
      var header := [OpenBracket] + fileName + [Pipe] + sectionName + [CloseBracket];
      var numItems := ReadInt();
      var items :- DecodeItems(numItems);
      return Ok([header] + items);
    }

    /** The section loop of a file with a positive section count. */
    method DecodeSections(fileName: Str, sectionCount: int32) returns (r: Result<seq<Str>>)
      requires Valid()
      modifies this
      ensures Valid() && data == old(data)
      ensures Renders(r, pos, ME12LE.ReadSections(Loose, data, old(pos), sectionCount, []),
                      (sections: seq<CoalSection>) => FileEvents(fileName, sections))
    {
      ghost var spec := ME12LE.ReadSections(Loose, data, pos, sectionCount, []);
      ghost var sections: seq<CoalSection> := [];
      ghost var left: int := sectionCount;
      var lines: seq<Str> := [];
      var i := 0;
      while i < sectionCount
        invariant Valid() && data == old(data)
        invariant left == sectionCount - i && ME12LE.ReadSections(Loose, data, pos, left, sections) == spec
        invariant lines == Text(FileEvents(fileName, sections))
        decreases left
      {
        ghost var p := pos;
        var section :- DecodeSection(fileName);
        ghost var read := ME12LE.ReadSection(Loose, data, p).value.0;
        SectionLines(fileName, sections, read);
        lines := lines + section;
        sections := sections + [read];
        i := i + 1;
        left := left - 1;
      }
      return Ok(lines);
    }

    /** One file: its name and section count, then the section loop, or
        the lone `[file|]` header when the count is not positive. */
    method DecodeFile() returns (r: Result<seq<Str>>)
      requires Valid()
      modifies this
      ensures Valid() && data == old(data)
      ensures Renders(r, pos, ME12LE.ReadFile(Loose, data, old(pos)), (f: CoalFile) => FileEvents(f.fileName, f.sections))
    {
      var fileName :- ReadString();
      var sectionCount := ReadInt();
      if sectionCount > 0 {
        r := DecodeSections(fileName, sectionCount);
      } else {
        EmptyFileLine(fileName);
        assert [OpenBracket] + fileName + [Pipe] + [CloseBracket] == HeaderText(fileName, []);
        r := Ok([[OpenBracket] + fileName + [Pipe] + [CloseBracket]]);
      }
    }

    /** `Decode`: the stream opened on the archive, the file count, then
        the file loop. */
    method Decode(contents: seq<byte>) returns (r: Result<seq<Str>>)
      modifies this
      ensures r == DecodeLines(contents)
    {
      data, pos := contents, 0;
      var fileCount := ReadInt();
      ghost var spec := ME12LE.ReadFiles(Loose, data, pos, fileCount, []);
      ghost var files: seq<CoalFile> := [];
      ghost var left: int := fileCount;
      var lines: seq<Str> := [];
      var fileIndex: int := 0;
      while fileIndex < fileCount
        invariant Valid() && data == contents
        invariant left == fileCount - fileIndex && ME12LE.ReadFiles(Loose, data, pos, left, files) == spec
        invariant lines == Text(Events(files))
        decreases left
      {
        ghost var p := pos;
        var file :- DecodeFile();
        ghost var read := ME12LE.ReadFile(Loose, data, p).value.0;
        FileLines(files, read);
        lines := lines + file;
        files := files + [read];
        fileIndex := fileIndex + 1;
        left := left - 1;
      }
      return Ok(lines);
    }

    // Encode: the read loop, then the writes.

    /** One field: its name, then its value. */
    method EncodeField(field: EncField)
      requires Valid() && pos == |data|
      modifies this
      ensures Valid() && pos == |data| && data == old(data) + (EncodeME12(field.name) + EncodeME12(field.value))
    {
      WriteString(field.name);
      WriteString(field.value);
      Associative3(old(data), EncodeME12(field.name), EncodeME12(field.value));
    }

    /** One section: its name, its field count, then name and value per
        field. */
    method EncodeSection(section: EncSection)
      requires Valid() && pos == |data|
      modifies this
      ensures Valid() && pos == |data| && data == old(data) + ME12LE.SectionBytes(Loose, LiftSection(section))
    {
      var fields := section.fields;
      WriteString(section.name);
      WriteInt(Wrap32(|fields|));
      Int32BytesWrap(|fields|);
      ghost var h := data;
      var i := 0;
      while i < |fields|
        invariant 0 <= i <= |fields|
        invariant Valid() && pos == |data| && data == h + ME12LE.FieldsBytes(Loose, LiftFields(fields[..i]))
      {
        EncodeField(fields[i]);
        FieldBytesStep(fields, i);
        Associative3(h, ME12LE.FieldsBytes(Loose, LiftFields(fields[..i])), EncodeME12(fields[i].name) + EncodeME12(fields[i].value));
        i := i + 1;
      }
      assert fields[..i] == fields;
      SectionBytesOf(section);
      Associative3(old(data), EncodeME12(section.name), Int32Bytes(|fields|));
      Associative3(old(data), EncodeME12(section.name) + Int32Bytes(|fields|), ME12LE.FieldsBytes(Loose, LiftFields(fields)));
    }

    /** One file: its name, its section count, then the sections. */
    method EncodeFile(file: EncFile)
      requires Valid() && pos == |data|
      modifies this
      ensures Valid() && pos == |data| && data == old(data) + ME12LE.FileBytes(Loose, LiftFile(file))
    {
      var sections := file.sections;
      WriteString(file.fileName);
      WriteInt(Wrap32(|sections|));
      Int32BytesWrap(|sections|);
      ghost var h := data;
      var i := 0;
      while i < |sections|
        invariant 0 <= i <= |sections|
        invariant Valid() && pos == |data| && data == h + ME12LE.SectionsBytes(Loose, LiftSections(sections[..i]))
      {
        EncodeSection(sections[i]);
        SectionBytesStep(sections, i);
        Associative3(h, ME12LE.SectionsBytes(Loose, LiftSections(sections[..i])), ME12LE.SectionBytes(Loose, LiftSection(sections[i])));
        i := i + 1;
      }
      assert sections[..i] == sections;
      Associative3(old(data), EncodeME12(file.fileName), Int32Bytes(|sections|));
      Associative3(old(data), EncodeME12(file.fileName) + Int32Bytes(|sections|), ME12LE.SectionsBytes(Loose, LiftSections(sections)));
    }

    /** `Encode`: the read loop builds the EncDoc line by line, stopping at
        the first exception; then the stream is created and the document
        written. */
    method Encode(lines: seq<Str>) returns (r: Result<seq<byte>>)
      modifies this
      ensures r == EncodeBytes(lines)
      ensures r.Ok? ==> data == r.value
    {
      var doc :- ReadDoc(lines);
      var files := doc.files;
      data, pos := [], 0;
      WriteDoc(files);
      return Ok(data);
    }

    /** Encode's read loop. */
    method ReadDoc(lines: seq<Str>) returns (r: Result<Building>)
      ensures r == ParseFrom(lines, 0, Empty)
    {
      ghost var spec := ParseFrom(lines, 0, Empty);
      var doc := Empty;
      var lineNumber := 0;
      while lineNumber < |lines|
        invariant 0 <= lineNumber <= |lines| && doc.Valid()
        invariant ParseFrom(lines, lineNumber, doc) == spec
      {
        var line := lines[lineNumber];
        lineNumber := lineNumber + 1;
        if Ini.Skipped(line) {
          continue;
        }
        var match_ := SectionMatch(line);
        if match_.Some? {
          var sectionName := match_.value;
          var index := Ini.IndexOf(sectionName, Pipe);
          if index <= 0 {
            return Err(IniNoCurrentFile(lineNumber));
          }
          var fileName := sectionName[..index];
          sectionName := sectionName[index + 1..];
          doc := OnHeader(doc, fileName, sectionName);
          continue;
        }
        var index := Ini.IndexOf(line, EqualsSign);
        if index <= 0 {
          return Err(IniInvalidKeyName(lineNumber));
        }
        var fieldName := line[..index];
        var fieldValue := IniDecode(line[index + 1..]);
        if !doc.section {
          return Err(IniNoCurrentSection(lineNumber));
        }
        doc := OnField(doc, fieldName, fieldValue).value;
      }
      return Ok(doc);
    }

    /** Encode's writes, on the stream just created. */
    method WriteDoc(files: seq<EncFile>)
      requires data == [] && pos == 0
      modifies this
      ensures Valid() && data == ME12LE.SaveBytes(Loose, Lift(files))
    {
      WriteInt(Wrap32(|files|));
      Int32BytesWrap(|files|);
      assert [] + Int32Bytes(|files|) == Int32Bytes(|files|);
      ghost var h := data;
      var i := 0;
      while i < |files|
        invariant 0 <= i <= |files|
        invariant Valid() && pos == |data| && data == h + ME12LE.FilesBytes(Loose, Lift(files[..i]))
      {
        EncodeFile(files[i]);
        FileBytesStep(files, i);
        Associative3(h, ME12LE.FilesBytes(Loose, Lift(files[..i])), ME12LE.FileBytes(Loose, LiftFile(files[i])));
        i := i + 1;
      }
      assert files[..i] == files;
    }
  }

  lemma FieldBytesStep(fields: seq<EncField>, i: nat)
    requires i < |fields|
    ensures ME12LE.FieldsBytes(Loose, LiftFields(fields[..i + 1]))
            == ME12LE.FieldsBytes(Loose, LiftFields(fields[..i])) + (EncodeME12(fields[i].name) + EncodeME12(fields[i].value))
  {
    assert fields[..i + 1][..i] == fields[..i];
    var lifted := LiftFields(fields[..i + 1]);
    assert lifted[..i] == LiftFields(fields[..i]);
    assert [fields[i].value][..0] == [];
    assert ME12LE.ValuesBytes(Loose, fields[i].name, [fields[i].value]) == [] + (EncodeME12(fields[i].name) + EncodeME12(fields[i].value));
  }

  /** A lifted section's count is its number of fields. */
  lemma SectionBytesOf(section: EncSection)
    ensures ME12LE.SectionBytes(Loose, LiftSection(section))
            == EncodeME12(section.name) + Int32Bytes(|section.fields|) + ME12LE.FieldsBytes(Loose, LiftFields(section.fields))
  {
    LiftValues(section.fields);
  }

  lemma SectionBytesStep(sections: seq<EncSection>, i: nat)
    requires i < |sections|
    ensures ME12LE.SectionsBytes(Loose, LiftSections(sections[..i + 1]))
            == ME12LE.SectionsBytes(Loose, LiftSections(sections[..i])) + ME12LE.SectionBytes(Loose, LiftSection(sections[i]))
  {
    assert sections[..i + 1][..i] == sections[..i];
    assert LiftSections(sections[..i + 1])[..i] == LiftSections(sections[..i]);
  }

  lemma FileBytesStep(files: seq<EncFile>, i: nat)
    requires i < |files|
    ensures ME12LE.FilesBytes(Loose, Lift(files[..i + 1]))
            == ME12LE.FilesBytes(Loose, Lift(files[..i])) + ME12LE.FileBytes(Loose, LiftFile(files[i]))
  {
    assert files[..i + 1][..i] == files[..i];
    assert Lift(files[..i + 1])[..i] == Lift(files[..i]);
  }

  /** ReadString's reading of a prefix that is not positive, then its chars. */
  lemma StringRead(d: seq<byte>, p: nat, len: int32, q: nat, sb: Str, q': nat)
    requires LooseInt32At(d, p) == (len, q) && len <= 0
    requires LooseUnits(d, q, Wrap32(-(len as int))) == (sb, q')
    ensures TrimNul(sb) == sb && LooseStringAt(d, p) == Ok((sb, q'))
  {
    TrimNoNul(sb);
  }

  /** A decode loop's outcome r, with the cursor left at newPos: the lines
      of what the reader spec reads, or its exception. */
  ghost predicate Renders<T>(r: Result<seq<Str>>, newPos: nat, spec: Result<(T, nat)>, events: T -> seq<Event>)
  {
    if spec.Ok? then r == Ok(Text(events(spec.value.0))) && newPos == spec.value.1
    else r == Err(spec.error)
  }

  /** The item line of one more single-valued field. */
  lemma ItemLine(fields: seq<CoalField>, name: Str, value: Str)
    ensures Text(FieldsEvents(fields + [CoalField(name, [value])])) == Text(FieldsEvents(fields)) + [ItemText(name, value)]
  {
    var all := fields + [CoalField(name, [value])];
    assert all[..|all| - 1] == fields;
    assert FieldEvents(CoalField(name, [value])) == [Value(name, value)] by {
      assert [value][..0] == [];
    }
    TextAppend(FieldsEvents(fields), [Value(name, value)]);
  }

  /** The lines of one more section. */
  lemma SectionLines(fileName: Str, sections: seq<CoalSection>, section: CoalSection)
    ensures Text(FileEvents(fileName, sections + [section])) == Text(FileEvents(fileName, sections)) + Text(SectionEvents(fileName, section))
  {
    var all := sections + [section];
    assert all[..|all| - 1] == sections;
    TextAppend(FileEvents(fileName, sections), SectionEvents(fileName, section));
  }

  /** The lines of one more file. */
  lemma FileLines(files: seq<CoalFile>, file: CoalFile)
    ensures Text(Events(files + [file])) == Text(Events(files)) + Text(FileEvents(file.fileName, file.sections))
  {
    var all := files + [file];
    assert all[..|all| - 1] == files;
    TextAppend(Events(files), FileEvents(file.fileName, file.sections));
  }

  /** A file read with no sections has the one empty section, whose lines
      are the lone `[file|]` header. */
  lemma EmptyFileLine(fileName: Str)
    ensures Text(FileEvents(fileName, [CoalSection([], [])])) == [HeaderText(fileName, [])]
  {
    var sections := [CoalSection([], [])];
    assert sections[..0] == [];
  }

  /** One turn of IniEncode's loop appends the escape of the next char. */
  lemma EscapeStep(r: Str, str: Str, i: nat)
    requires i < |str| && r + EscapedValue(str[i..]) == EscapedValue(str)
    ensures (r + EscapeChar(str[i])) + EscapedValue(str[i + 1..]) == EscapedValue(str)
  {
    EscapeHead(str[i..]);
    assert str[i..][1..] == str[i + 1..];
    Associative3(r, EscapeChar(str[i]), EscapedValue(str[i + 1..]));
  }

  lemma EscapeHead(t: Str)
    requires t != []
    ensures EscapedValue(t) == EscapeChar(t[0]) + EscapedValue(t[1..])
  {
  }

  /** One turn of IniDecode's loop appends the char DecodeStep gives and
      moves past what it consumes. */
  lemma UnescapeStep(r: Str, str: Str, start: nat, c: Char16, next: nat)
    requires start < |str| && r + UnescapedValue(str[start..]) == UnescapedValue(str)
    requires DecodeStep(str[start..]) == (c, next - start)
    ensures next <= |str| && (r + [c]) + UnescapedValue(str[next..]) == UnescapedValue(str)
  {
    UnescapeHead(str[start..], c, next - start);
    assert str[start..][next - start..] == str[next..];
    Associative3(r, [c], UnescapedValue(str[next..]));
  }

  lemma UnescapeHead(t: Str, c: Char16, k: nat)
    requires t != [] && DecodeStep(t) == (c, k)
    ensures k <= |t| && UnescapedValue(t) == [c] + UnescapedValue(t[k..])
  {
  }

  /** DecodeStep at index k of a string, in the string's own indices. */
  lemma DecodeAt(str: Str, k: nat)
    requires k < |str|
    ensures DecodeStep(str[k..]) ==
      if str[k] == Backslash && k + 1 < |str| then
        if str[k + 1] == Backslash then (Backslash, 2)
        else if str[k + 1] == LowerT then (Tab, 2)
        else if str[k + 1] == LowerR then (CR, 2)
        else if str[k + 1] == LowerN then (LF, 2)
        else if str[k + 1] == LowerX && k + 5 < |str| && ParseHex4(str[k + 2..k + 6]).Some? then
          (ParseHex4(str[k + 2..k + 6]).value, 6)
        else (Backslash, 1)
      else (str[k], 1)
  {
    if k + 5 < |str| {
      assert str[k..][2..6] == str[k + 2..k + 6];
    }
  }
}
