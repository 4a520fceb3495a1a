/** The INI text side of the converter: the escape codec (IniWriter.IniEncode,
    IniReader.IniDecode), the writer of section and field lines, and the
    reader that classifies lines into sections and fields. */
module Ini {
  import opened Wrappers
  import opened Primitives
  import opened Formats

  /** `IniWriter.EscapeChar`. Its declaration is not part of this model; the
      writer's backslash escape fixes it as the backslash. */
  const EscapeChar: Char16 := '\\' as int
  const CR: Char16 := 13
  const LF: Char16 := 10
  const Space: Char16 := 32
  const Pipe: Char16 := '|' as int
  const EqualsSign: Char16 := '=' as int
  const OpenBracket: Char16 := '[' as int
  const CloseBracket: Char16 := ']' as int
  const Semicolon: Char16 := ';' as int

  // ---------------------------------------------------------------------
  // The escape codec.

  /** What IniEncode appends for one char. */
  function Escape(ch: Char16, escapePipe: bool, escapeEquals: bool): (r: Str)
  {
    if ch == EscapeChar then [EscapeChar, EscapeChar]
    else if ch == CR then [EscapeChar, 'r' as int]
    else if ch == LF then [EscapeChar, 'n' as int]
    else if ch == Pipe && escapePipe then [EscapeChar, 'p' as int]
    else if ch == EqualsSign && escapeEquals then [EscapeChar, 'e' as int]
    else [ch]
  }

  /** IniEncode: each char by its escape, one or two chars each. */
  function IniEncode(s: Str, escapePipe: bool, escapeEquals: bool): (r: Str)
    ensures |s| <= |r| <= 2 * |s|
  {
    if s == [] then [] else Escape(s[0], escapePipe, escapeEquals) + IniEncode(s[1..], escapePipe, escapeEquals)
  }

  /** The encoded text is one line and, as asked, holds no '|' or no '='. */
  lemma {:induction false} EncodeOneLine(s: Str, escapePipe: bool, escapeEquals: bool)
    ensures var r := IniEncode(s, escapePipe, escapeEquals);
      CR !in r && LF !in r && (escapePipe ==> Pipe !in r) && (escapeEquals ==> EqualsSign !in r)
    decreases |s|
  {
    if s != [] {
      EncodeOneLine(s[1..], escapePipe, escapeEquals);
    }
  }

  /** The char an escape code after the escape char stands for, if any. */
  function Unescape(code: Char16): Option<Char16>
  {
    if code == EscapeChar then Some(EscapeChar)
    else if code == 'r' as int then Some(CR)
    else if code == 'n' as int then Some(LF)
    else if code == 'p' as int then Some(Pipe)
    else if code == 'e' as int then Some(EqualsSign)
    else None
  }

  /** IniDecode: an escape char and a known code become one char; an escape
      char before anything else, or at the end, stays as it is. */
  function IniDecode(s: Str): (r: Str)
    ensures |r| <= |s|
    decreases |s|
  {
    if s == [] then []
    else if s[0] == EscapeChar && |s| >= 2 && Unescape(s[1]).Some? then [Unescape(s[1]).value] + IniDecode(s[2..])
    else [s[0]] + IniDecode(s[1..])
  }

  /** Decoding undoes one char's escape, whatever follows it. */
  lemma DecodeEscaped(ch: Char16, escapePipe: bool, escapeEquals: bool, tail: Str)
    ensures IniDecode(Escape(ch, escapePipe, escapeEquals) + tail) == [ch] + IniDecode(tail)
  {
    var e := Escape(ch, escapePipe, escapeEquals);
    if |e| == 2 {
      assert (e + tail)[2..] == tail;
    } else {
      assert (e + tail)[1..] == tail;
    }
  }

  /** IniDecode(IniEncode(s, p, e)) == s for every string and both flags. */
  lemma {:induction false} DecodeEncode(s: Str, escapePipe: bool, escapeEquals: bool)
    ensures IniDecode(IniEncode(s, escapePipe, escapeEquals)) == s
  {
    if s != [] {
      DecodeEncode(s[1..], escapePipe, escapeEquals);
      DecodeEscaped(s[0], escapePipe, escapeEquals, IniEncode(s[1..], escapePipe, escapeEquals));
      assert s == [s[0]] + s[1..];
    }
  }

  /** An escape char before a char that is no code is kept, and so is one at
      the very end. */
  lemma LoneEscapeKept(code: Char16, tail: Str)
    requires Unescape(code).None?
    ensures IniDecode([EscapeChar, code] + tail) == [EscapeChar] + IniDecode([code] + tail)
    ensures IniDecode([EscapeChar]) == [EscapeChar]
  {
    assert ([EscapeChar, code] + tail)[1..] == [code] + tail;
  }

  // ---------------------------------------------------------------------
  // Finding chars.

  /** `IndexOf`: the first position of c in s, -1 when there is none. */
  function IndexOf(s: Str, c: Char16): (r: int)
    ensures -1 <= r < |s|
    ensures r == -1 <==> c !in s
    ensures r >= 0 ==> s[r] == c && c !in s[..r]
  {
    if s == [] then -1
    else if s[0] == c then 0
    else
      var k := IndexOf(s[1..], c);
      assert k >= 0 ==> s[..k + 1] == [s[0]] + s[1..][..k];
      if k < 0 then -1 else k + 1
  }

  /** c is first found just after a text without it. */
  lemma IndexOfAfter(a: Str, c: Char16, b: Str)
    requires c !in a
    ensures IndexOf(a + [c] + b, c) == |a|
  {
    var s := a + [c] + b;
    assert s[|a|] == c;
    assert s[..|a|] == a;
  }

  // ---------------------------------------------------------------------
  // The writer.

  /** `format.ToString()`. */
  function FormatName(format: CoalescedFormat): Str
  {
    match format
    case CoalescedUnknown => S("Unknown")
    case CoalescedME12LE => S("MassEffect12LE")
    case CoalescedME3LE => S("MassEffect3LE")
  }

  /** The line WriteSection writes: the file name with its pipes escaped,
      a pipe, the section name, in brackets. */
  function SectionLine(fileName: Str, sectionName: Str): Str
  {
    [OpenBracket] + IniEncode(fileName, true, false) + [Pipe] + IniEncode(sectionName, false, false) + [CloseBracket]
  }

  /** The line WriteField writes: the name with its equals signs escaped,
      '=', the value. */
  function FieldLine(name: Str, value: Str): Str
  {
    IniEncode(name, false, true) + [EqualsSign] + IniEncode(value, false, false)
  }

  /** The lines WriteField(name, values) writes: one per value, in order. */
  function FieldLines(name: Str, values: seq<Str>): (r: seq<Str>)
    ensures |r| == |values|
    ensures forall i :: 0 <= i < |values| ==> r[i] == FieldLine(name, values[i])
  {
    if values == [] then [] else FieldLines(name, values[..|values| - 1]) + [FieldLine(name, values[|values| - 1])]
  }

  /** IniWriter over the lines it has written (the stream writer's text,
      one entry per WriteLine). */
  class IniWriter {
    var lines: seq<Str>
    var fieldsWritten: bool

    /** The first line names the format; `CoalescedFormatDetector.IniFirstLine`
        is not part of this model and comes in as firstLine. */
    constructor (firstLine: Str, format: CoalescedFormat)
      ensures lines == [firstLine + [Space] + FormatName(format)]
      ensures !fieldsWritten
    {
      lines := [firstLine + [Space] + FormatName(format)];
      fieldsWritten := false;
    }

    /** A writer whose first line is given whole: CoalDocument.Save opens
        its writer with a constructor that is not part of this model. */
    constructor Headed(header: Str)
      ensures lines == [header]
      ensures !fieldsWritten
    {
      lines := [header];
      fieldsWritten := false;
    }

    /** A blank line first when fields were written since the last header,
        then the header. */
    method WriteSection(fileName: Str, sectionName: Str)
      modifies this
      ensures lines == old(lines) + (if old(fieldsWritten) then [[]] else []) + [SectionLine(fileName, sectionName)]
      ensures !fieldsWritten
    {
      if fieldsWritten {
        lines := lines + [[]];
        fieldsWritten := false;
      }
      lines := lines + [SectionLine(fileName, sectionName)];
    }

    method WriteField(name: Str, value: Str)
      modifies this
      ensures lines == old(lines) + [FieldLine(name, value)]
      ensures fieldsWritten
    {
      lines := lines + [FieldLine(name, value)];
      fieldsWritten := true;
    }

    /** WriteField(name, values): one field line per value, in order. */
    method WriteFields(name: Str, values: seq<Str>)
      modifies this
      ensures lines == old(lines) + FieldLines(name, values)
      ensures fieldsWritten == (old(fieldsWritten) || |values| > 0)
    {
      ghost var start := lines;
      var i := 0;
      while i < |values|
        invariant 0 <= i <= |values|
        invariant lines == start + FieldLines(name, values[..i])
        invariant fieldsWritten == (old(fieldsWritten) || i > 0)
      {
        assert values[..i + 1][..i] == values[..i];
        WriteField(name, values[i]);
        i := i + 1;
      }
      assert values[..i] == values;
    }
  }

  // ---------------------------------------------------------------------
  // The reader.

  /** `\s` and `char.IsWhiteSpace`: the control chars TAB to CR and NEL,
      and the Unicode space, line and paragraph separators. */
  predicate IsBlank(c: Char16)
  {
    9 <= c <= 13 || c == Space || c == 0x85 || c == 0xA0 || c == 0x1680 ||
    0x2000 <= c <= 0x200A || c == 0x2028 || c == 0x2029 || c == 0x202F ||
    c == 0x205F || c == 0x3000
  }

  /** The text up to its last non-blank char. */
  function TrimEnd(s: Str): (r: Str)
    ensures |r| <= |s| && r == s[..|r|]
    ensures r == [] || !IsBlank(r[|r| - 1])
    ensures s != [] && !IsBlank(s[|s| - 1]) ==> r == s
  {
    if s != [] && IsBlank(s[|s| - 1]) then TrimEnd(s[..|s| - 1]) else s
  }

  /** A blank line, or one whose first non-blank char is ';'. */
  predicate Skipped(line: Str)
    decreases |line|
  {
    line == [] || if IsBlank(line[0]) then Skipped(line[1..]) else line[0] == Semicolon
  }

  /** `^\[(.+)\]\s*$`: the text between a leading '[' and the last ']',
      which only blanks follow; '.' matches anything but LF. */
  function SectionMatch(line: Str): (r: Option<Str>)
    ensures r.Some? ==> |r.value| >= 1 && LF !in r.value
  {
    var t := TrimEnd(line);
    if |t| >= 3 && t[0] == OpenBracket && t[|t| - 1] == CloseBracket && LF !in t[1..|t| - 1]
    then Some(t[1..|t| - 1])
    else None
  }

  datatype IniReadResultType = EndOfStream | Section | Field

  /** `IniReadResult`: a string that is never set stays None. */
  datatype IniReadResult = IniReadResult(kind: IniReadResultType, value1: Option<Str>, value2: Option<Str>, lineNumber: nat)

  /** The strings a result carries: a field has its name and value, a
      section its file name and, with file names embedded, its section. */
  predicate Complete(r: IniReadResult, embedded: bool)
  {
    (r.kind == Field ==> r.value1.Some? && r.value2.Some?) &&
    (r.kind == Section ==> r.value1.Some? && (embedded ==> r.value2.Some?))
  }

  function Unescaped(s: Str, unescape: bool): Str
  {
    if unescape then IniDecode(s) else s
  }

  /** A header line whose bracketed text is name: split at its first '|'
      into file and section when file names are embedded, which needs a
      non-empty file part. */
  function SectionResult(name: Str, lineNumber: nat, embedded: bool, unescape: bool): (r: Result<Option<IniReadResult>>)
    ensures r.Ok? ==> r.value.Some? && r.value.value.kind == Section && r.value.value.lineNumber == lineNumber
    ensures r.Ok? ==> r.value.value.value1.Some? && (embedded ==> r.value.value.value2.Some?)
    ensures r.Err? <==> embedded && IndexOf(name, Pipe) <= 0
  {
    if embedded then
      var index := IndexOf(name, Pipe);
      if index <= 0 then Err(IniNoCurrentFile(lineNumber))
      else Ok(Some(IniReadResult(Section, Some(Unescaped(name[..index], unescape)),
                                 Some(Unescaped(name[index + 1..], unescape)), lineNumber)))
    else Ok(Some(IniReadResult(Section, Some(Unescaped(name, unescape)), None, lineNumber)))
  }

  /** Any other line: the name before its first '=', which must not be
      empty, and the value after it. */
  function FieldResult(line: Str, lineNumber: nat, unescape: bool): (r: Result<Option<IniReadResult>>)
    ensures r.Ok? ==> r.value.Some? && r.value.value.kind == Field && r.value.value.lineNumber == lineNumber
    ensures r.Ok? ==> r.value.value.value1.Some? && r.value.value.value2.Some?
    ensures r.Err? <==> IndexOf(line, EqualsSign) <= 0
  {
    var index := IndexOf(line, EqualsSign);
    if index <= 0 then Err(IniInvalidKeyName(lineNumber))
    else Ok(Some(IniReadResult(Field, Some(Unescaped(line[..index], unescape)),
                               Some(Unescaped(line[index + 1..], unescape)), lineNumber)))
  }

  /** What Read makes of one line, lineNumber being its number: nothing for
      a skipped line, else a section or a field, or the error it raises. */
  function Classify(line: Str, lineNumber: nat, embedded: bool, unescape: bool): (r: Result<Option<IniReadResult>>)
    ensures r.Ok? && r.value.Some? ==> r.value.value.kind != IniReadResultType.EndOfStream && r.value.value.lineNumber == lineNumber
    ensures r.Ok? && r.value.Some? ==> Complete(r.value.value, embedded)
    ensures r.Ok? ==> (r.value.None? <==> Skipped(line))
    ensures r.Err? ==> !Skipped(line)
  {
    if Skipped(line) then Ok(None)
    else
      match SectionMatch(line)
      case Some(name) => SectionResult(name, lineNumber, embedded, unescape)
      case None => FieldResult(line, lineNumber, unescape)
  }

  /** Read from line next on: skipped lines pass, the first other line gives
      the result (with the line after it), and running out of lines gives
      EndOfStream. */
  function ReadFrom(lines: seq<Str>, next: nat, embedded: bool, unescape: bool): (r: Result<(IniReadResult, nat)>)
    requires next <= |lines|
    ensures r.Ok? ==> next <= r.value.1 <= |lines| && r.value.0.lineNumber == r.value.1
    ensures r.Ok? && r.value.0.kind != IniReadResultType.EndOfStream ==> next < r.value.1 && Complete(r.value.0, embedded)
    decreases |lines| - next
  {
    if next == |lines| then Ok((IniReadResult(IniReadResultType.EndOfStream, None, None, next), next))
    else
      match Classify(lines[next], next + 1, embedded, unescape)
      case Err(e) => Err(e)
      case Ok(None) => ReadFrom(lines, next + 1, embedded, unescape)
      case Ok(Some(result)) => Ok((result, next + 1))
  }

  /** Lines from up to stop, all of them skipped. */
  ghost predicate SkippedUpTo(lines: seq<Str>, from: nat, stop: nat)
    decreases stop - from
  {
    from <= stop <= |lines| && (from == stop || (Skipped(lines[from]) && SkippedUpTo(lines, from + 1, stop)))
  }

  /** Past the last line, Read gives EndOfStream and stays there. */
  lemma ReadAtEnd(lines: seq<Str>, next: nat, embedded: bool, unescape: bool)
    requires next == |lines|
    ensures ReadFrom(lines, next, embedded, unescape) == Ok((IniReadResult(IniReadResultType.EndOfStream, None, None, next), next))
    ensures SkippedUpTo(lines, next, |lines|)
  {
  }

  /** Read passes over exactly the skipped lines: it returns EndOfStream
      only when every line left is skipped, and otherwise stops on the first
      line that is not. */
  lemma {:induction false} ReadSkips(lines: seq<Str>, next: nat, embedded: bool, unescape: bool)
    requires next <= |lines|
    ensures var r := ReadFrom(lines, next, embedded, unescape);
      r.Ok? && r.value.0.kind == IniReadResultType.EndOfStream ==> r.value.1 == |lines| && SkippedUpTo(lines, next, |lines|)
    ensures var r := ReadFrom(lines, next, embedded, unescape);
      r.Ok? && r.value.0.kind != IniReadResultType.EndOfStream ==>
        next < r.value.1 && SkippedUpTo(lines, next, r.value.1 - 1) && !Skipped(lines[r.value.1 - 1])
    decreases |lines| - next
  {
    if next < |lines| {
      var c := Classify(lines[next], next + 1, embedded, unescape);
      if c.Ok? && c.value.Some? {
        assert ReadFrom(lines, next, embedded, unescape) == Ok((c.value.value, next + 1));
        assert SkippedUpTo(lines, next, next);
      } else if c.Ok? {
        ReadSkips(lines, next + 1, embedded, unescape);
        var r := ReadFrom(lines, next + 1, embedded, unescape);
        assert ReadFrom(lines, next, embedded, unescape) == r;
        if r.Ok? && r.value.0.kind != IniReadResultType.EndOfStream {
          assert SkippedUpTo(lines, next, r.value.1 - 1);
        }
      } else {
        assert ReadFrom(lines, next, embedded, unescape).Err?;
      }
    } else {
      ReadAtEnd(lines, next, embedded, unescape);
    }
  }

  // ---------------------------------------------------------------------
  // The lines of a text, as the reader's StreamReader delivers them.

  /** Where the first line of s ends: at its first CR or LF, or at its end. */
  function LineEnd(s: Str): (i: nat)
    ensures i <= |s| && (i < |s| ==> s[i] == CR || s[i] == LF)
    ensures forall j :: 0 <= j < i ==> s[j] != CR && s[j] != LF
  {
    if s == [] || s[0] == CR || s[0] == LF then 0 else 1 + LineEnd(s[1..])
  }

  /** `ReadLine` until the end: the text split at each CR, LF or CR LF; a
      line ending at the very end adds no empty line. */
  function Lines(text: Str): seq<Str>
    decreases |text|
  {
    if text == [] then []
    else
      var i := LineEnd(text);
      var rest :=
        if i == |text| then []
        else if text[i] == CR && i + 1 < |text| && text[i + 1] == LF then text[i + 2..]
        else text[i + 1..];
      [text[..i]] + Lines(rest)
  }

  /** The text of lines each followed by a "\n" line end. */
  function JoinLines(lines: seq<Str>): Str
  {
    if lines == [] then [] else lines[0] + [LF] + JoinLines(lines[1..])
  }

  predicate NoLineBreak(s: Str)
  {
    CR !in s && LF !in s
  }

  /** Lines without line breaks, each ended by LF, split back into the
      same lines. */
  lemma {:induction false} LinesOfJoin(lines: seq<Str>)
    requires forall i :: 0 <= i < |lines| ==> NoLineBreak(lines[i])
    ensures Lines(JoinLines(lines)) == lines
  {
    if lines != [] {
      var l := lines[0];
      var rest := JoinLines(lines[1..]);
      var text := l + [LF] + rest;
      assert NoLineBreak(l);
      assert text[|l|] == LF;
      assert LineEnd(text) == |l|;
      assert text[..|l|] == l;
      assert text[|l| + 1..] == rest;
      LinesOfJoin(lines[1..]);
    }
  }

  /** IniReader over the lines of its text; the number of lines read so far
      is its position. */
  class IniReader {
    const lines: seq<Str>
    var lineNumber: nat
    const hasEmbeddedFileNames: bool
    const unescapeStrings: bool

    ghost predicate Valid()
      reads this
    {
      lineNumber <= |lines|
    }

    constructor (lines: seq<Str>, hasEmbeddedFileNames: bool, unescapeStrings: bool)
      ensures Valid() && lineNumber == 0
      ensures this.lines == lines && this.hasEmbeddedFileNames == hasEmbeddedFileNames
      ensures this.unescapeStrings == unescapeStrings
    {
      this.lines := lines;
      this.hasEmbeddedFileNames := hasEmbeddedFileNames;
      this.unescapeStrings := unescapeStrings;
      lineNumber := 0;
    }

    /** `EndOfStream`: no line is left to read. */
    function AtEnd(): bool
      reads this
    {
      lineNumber >= |lines|
    }

    /** Read: the next section or field, or EndOfStream. */
    method Read() returns (r: Result<IniReadResult>)
      requires Valid()
      modifies this
      ensures Valid()
      ensures var spec := ReadFrom(lines, old(lineNumber), hasEmbeddedFileNames, unescapeStrings);
        (spec.Err? ==> r == Err(spec.error)) &&
        (spec.Ok? ==> r == Ok(spec.value.0) && lineNumber == spec.value.1)
    {
      ghost var spec := ReadFrom(lines, lineNumber, hasEmbeddedFileNames, unescapeStrings);
      while lineNumber < |lines|
        invariant old(lineNumber) <= lineNumber <= |lines|
        invariant ReadFrom(lines, lineNumber, hasEmbeddedFileNames, unescapeStrings) == spec
        decreases |lines| - lineNumber
      {
        var line := lines[lineNumber];
        lineNumber := lineNumber + 1;
        var c := Classify(line, lineNumber, hasEmbeddedFileNames, unescapeStrings);
        if c.Err? {
          return Err(c.error);
        }
        if c.value.Some? {
          return Ok(c.value.value);
        }
      }
      return Ok(IniReadResult(IniReadResultType.EndOfStream, None, None, lineNumber));
    }
  }

  // ---------------------------------------------------------------------
  // What the writer writes, the reader reads back.

  /** Text in brackets, with nothing but the closing bracket at its end,
      matches the header pattern. */
  lemma BracketedMatch(body: Str)
    requires body != [] && LF !in body
    ensures SectionMatch([OpenBracket] + body + [CloseBracket]) == Some(body)
  {
    var line := [OpenBracket] + body + [CloseBracket];
    assert line[1..|line| - 1] == body;
  }

  /** The bracketed text of a header reads back as its file and section. */
  lemma SectionSplit(f: Str, s: Str, fileName: Str, sectionName: Str, lineNumber: nat)
    requires f == IniEncode(fileName, true, false) && s == IniEncode(sectionName, false, false) && fileName != []
    ensures SectionResult(f + [Pipe] + s, lineNumber, true, true)
      == Ok(Some(IniReadResult(Section, Some(fileName), Some(sectionName), lineNumber)))
  {
    var name := f + [Pipe] + s;
    EncodeOneLine(fileName, true, false);
    IndexOfAfter(f, Pipe, s);
    assert name[..|f|] == f && name[|f| + 1..] == s;
    DecodeEncode(fileName, true, false);
    DecodeEncode(sectionName, false, false);
  }

  /** A line that starts with '[' and matches the header pattern is read
      as a header. */
  lemma ClassifyHeader(line: Str, name: Str, lineNumber: nat, embedded: bool, unescape: bool)
    requires line != [] && line[0] == OpenBracket && SectionMatch(line) == Some(name)
    ensures Classify(line, lineNumber, embedded, unescape) == SectionResult(name, lineNumber, embedded, unescape)
  {
    assert !IsBlank(line[0]);
  }

  /** A section header with a file name reads back, unescaped, as that file
      and section. */
  lemma SectionLineReadsBack(fileName: Str, sectionName: Str, lineNumber: nat)
    requires fileName != []
    ensures Classify(SectionLine(fileName, sectionName), lineNumber, true, true)
      == Ok(Some(IniReadResult(Section, Some(fileName), Some(sectionName), lineNumber)))
  {
    var f, s := IniEncode(fileName, true, false), IniEncode(sectionName, false, false);
    var name := f + [Pipe] + s;
    var line := [OpenBracket] + name + [CloseBracket];
    assert SectionLine(fileName, sectionName) == line;
    EncodeOneLine(fileName, true, false);
    EncodeOneLine(sectionName, false, false);
    BracketedMatch(name);
    ClassifyHeader(line, name, lineNumber, true, true);
    SectionSplit(f, s, fileName, sectionName, lineNumber);
  }

  /** A header with an empty file name is refused. */
  lemma SectionLineNeedsFile(sectionName: Str, lineNumber: nat)
    ensures Classify(SectionLine([], sectionName), lineNumber, true, true) == Err(IniNoCurrentFile(lineNumber))
  {
    var name := [Pipe] + IniEncode(sectionName, false, false);
    assert SectionLine([], sectionName) == [OpenBracket] + name + [CloseBracket];
    EncodeOneLine(sectionName, false, false);
    BracketedMatch(name);
  }

  /** A name whose first char is no blank, ';' or '[' starts a line the
      reader takes for a field. */
  predicate PlainKey(name: Str)
  {
    name != [] && !IsBlank(name[0]) && name[0] != Semicolon && name[0] != OpenBracket
  }

  /** A line that starts with a char other than a blank, ';' or '[' is
      neither skipped nor a header. */
  lemma PlainLine(line: Str)
    requires line != [] && !IsBlank(line[0]) && line[0] != Semicolon && line[0] != OpenBracket
    ensures !Skipped(line) && SectionMatch(line).None?
  {
    TrimEndKeepsFirst(line);
  }

  lemma {:induction false} TrimEndKeepsFirst(s: Str)
    requires s != [] && !IsBlank(s[0])
    ensures TrimEnd(s) != [] && TrimEnd(s)[0] == s[0]
    decreases |s|
  {
    if IsBlank(s[|s| - 1]) {
      TrimEndKeepsFirst(s[..|s| - 1]);
    }
  }

  /** The encoded name and value of a field line read back as the name and
      value. */
  lemma FieldSplit(n: Str, v: Str, name: Str, value: Str, lineNumber: nat)
    requires n == IniEncode(name, false, true) && v == IniEncode(value, false, false) && name != []
    ensures FieldResult(n + [EqualsSign] + v, lineNumber, true)
      == Ok(Some(IniReadResult(Field, Some(name), Some(value), lineNumber)))
  {
    var line := n + [EqualsSign] + v;
    EncodeOneLine(name, false, true);
    IndexOfAfter(n, EqualsSign, v);
    assert line[..|n|] == n && line[|n| + 1..] == v;
    DecodeEncode(name, false, true);
    DecodeEncode(value, false, false);
  }

  /** A field line with a plain key reads back, unescaped, as that name and
      value. */
  lemma FieldLineReadsBack(name: Str, value: Str, lineNumber: nat, embedded: bool)
    requires PlainKey(name)
    ensures Classify(FieldLine(name, value), lineNumber, embedded, true)
      == Ok(Some(IniReadResult(Field, Some(name), Some(value), lineNumber)))
  {
    var n, v := IniEncode(name, false, true), IniEncode(value, false, false);
    var line := FieldLine(name, value);
    assert n == Escape(name[0], false, true) + IniEncode(name[1..], false, true);
    assert line[0] == n[0];
    PlainLine(line);
    FieldSplit(n, v, name, value, lineNumber);
  }
}
