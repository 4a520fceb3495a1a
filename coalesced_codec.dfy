/** The pieces of the oldest converter, CoalescedConverter.cs, that are pure:
    its reads over FileStream.ReadByte (which gives -1 at the end of the
    stream where the newer streams raise EndOfStreamException), its INI escape
    codec with `\xHHHH` codes, and the lines its Decode writes and its Encode
    parses. */
module CoalescedCodec {
  import opened Wrappers
  import opened Primitives
  import opened ByteCodec
  import opened StringCodec
  import opened Document
  import Ini

  // ---------------------------------------------------------------------
  // Reading over ReadByte.

  /** `ReadByte()`: the byte at the cursor, or -1 at the end of the stream. */
  function ByteOrEnd(d: seq<byte>, p: nat): (r: int)
    ensures -1 <= r < 0x100
    ensures r == -1 <==> p >= |d|
  {
    if p < |d| then d[p] else -1
  }

  /** The cursor after k calls of ReadByte: it stops at the end. */
  function Skip(d: seq<byte>, p: nat, k: nat): (r: nat)
    ensures p <= |d| ==> r <= |d|
    ensures r == p + k || (p + k > |d| && r == if p < |d| then |d| else p)
  {
    if p + k <= |d| then p + k else if p < |d| then |d| else p
  }

  /** `ReadInt`: `b0 | (b1 << 8) | (b2 << 16) | (b3 << 24)` on C# ints, each b
      a byte or -1. -1 has every bit set, and -1 shifted left by 8k has every
      bit from 8k up set, so the first -1 sets all the bits from its own
      byte up: after k bytes it gives their little-endian number minus
      256^k. Four bytes give their little-endian number wrapped to an int. */
  function Or4(b0: int, b1: int, b2: int, b3: int): (r: int32)
    requires -1 <= b0 < 0x100 && -1 <= b1 < 0x100 && -1 <= b2 < 0x100 && -1 <= b3 < 0x100
    ensures b0 < 0 || b1 < 0 || b2 < 0 || b3 < 0 <==> -0x100_0000 <= r < 0 && (b0 < 0 || b1 < 0 || b2 < 0 || b3 < 0)
  {
    if b0 < 0 then -1
    else if b1 < 0 then b0 - 0x100
    else if b2 < 0 then b0 + 0x100 * b1 - 0x1_0000
    else if b3 < 0 then b0 + 0x100 * b1 + 0x1_0000 * b2 - 0x100_0000
    else DecodeInt32(b0, b1, b2, b3)
  }

  /** What ReadInt returns and where it leaves the cursor. With four bytes
      left it reads what the strict reader reads; with fewer it never fails
      but returns a negative number, which no count loop runs on. */
  function LooseInt32At(d: seq<byte>, p: nat): (r: (int32, nat))
    ensures p + 4 <= |d| ==> ReadInt32At(d, p) == Ok(r)
    ensures p + 4 > |d| ==> r.0 < 0 && r.1 == (if p < |d| then |d| else p)
  {
    (Or4(ByteOrEnd(d, p), ByteOrEnd(d, p + 1), ByteOrEnd(d, p + 2), ByteOrEnd(d, p + 3)), Skip(d, p, 4))
  }

  /** LooseInt32At as a reader that always succeeds. */
  function LooseReadInt(d: seq<byte>, p: nat): Result<(int32, nat)>
  {
    Ok(LooseInt32At(d, p))
  }

  /** `(char)(lo | (hi << 8))`, each a byte or -1: a missing low byte gives
      U+FFFF, a missing high byte U+FF00 plus the low one. */
  function CharOf(lo: int, hi: int): (r: Char16)
    requires -1 <= lo < 0x100 && -1 <= hi < 0x100
    ensures lo >= 0 && hi >= 0 ==> r == DecodeUInt16(lo, hi)
    ensures lo < 0 || hi < 0 ==> r >= 0xFF00
  {
    if lo < 0 then 0xFFFF else if hi < 0 then 0xFF00 + lo else lo + 0x100 * hi
  }

  /** The char loop of ReadString: up to n chars, stopping after (and
      consuming) a NUL one. */
  function LooseUnits(d: seq<byte>, p: nat, n: int): (r: (Str, nat))
    ensures NoNul(r.0) && |r.0| <= (if n > 0 then n else 0)
    decreases if n > 0 then n else 0
  {
    if n <= 0 then ([], p)
    else
      var ch := CharOf(ByteOrEnd(d, p), ByteOrEnd(d, p + 1));
      var q := Skip(d, p, 2);
      if ch == NUL then ([], q)
      else
        var rest := LooseUnits(d, q, n - 1);
        ([ch] + rest.0, rest.1)
  }

  /** `TrimEnd('\0')`. */
  function TrimNul(s: Str): (r: Str)
    ensures |r| <= |s| && r == s[..|r|]
    ensures r == [] || r[|r| - 1] != NUL
    ensures forall i :: |r| <= i < |s| ==> s[i] == NUL
  {
    if s != [] && s[|s| - 1] == NUL then TrimNul(s[..|s| - 1]) else s
  }

  /** Trimming NULs keeps a string without them. */
  lemma TrimNoNul(s: Str)
    requires NoNul(s)
    ensures TrimNul(s) == s
  {
    if s != [] {
      assert s[|s| - 1] != NUL;
    }
  }

  /** `ReadString`: a positive prefix raises CoelescedReadException;
      otherwise the negated prefix (wrapped, so int.MinValue stays
      negative and reads nothing) bounds the char loop. Nothing else fails:
      past the end every byte reads as -1. */
  function LooseStringAt(d: seq<byte>, p: nat): (r: Result<(Str, nat)>)
    ensures r.Err? <==> LooseInt32At(d, p).0 > 0
    ensures r.Err? ==> r.error == CoalescedRead(PositivePrefix(LooseInt32At(d, p).0))
    ensures r.Ok? ==> NoNul(r.value.0)
  {
    var prefix := LooseInt32At(d, p);
    if prefix.0 > 0 then Err(CoalescedRead(PositivePrefix(prefix.0)))
    else
      var units := LooseUnits(d, prefix.1, Wrap32(-(prefix.0 as int)));
      TrimNoNul(units.0);
      Ok((TrimNul(units.0), units.1))
  }

  /** Where the strict char loop succeeds, the loose one reads the same. */
  lemma {:induction false} UnitsAgree(d: seq<byte>, p: nat, n: int)
    requires ReadUnits(d, p, n).Ok?
    ensures LooseUnits(d, p, n) == ReadUnits(d, p, n).value
    decreases if n > 0 then n else 0
  {
    if n > 0 {
      if d[p] as int + 0x100 * d[p + 1] as int != NUL {
        UnitsAgree(d, p + 2, n - 1);
      }
    }
  }

  /** Wherever the newer ME1/2 LE reader reads a string, the old reader
      reads the same string and stops at the same place. */
  lemma LooseAgrees(d: seq<byte>, p: nat)
    requires ReadME12At(d, p).Ok?
    ensures LooseStringAt(d, p) == ReadME12At(d, p)
  {
    var prefix := ReadInt32At(d, p).value;
    UnitsAgree(d, prefix.1, Wrap32(-(prefix.0 as int)));
    TrimNoNul(ReadME12At(d, p).value.0);
  }

  /** The old reader reads back what WriteString writes. */
  lemma LooseReadsBack(d: seq<byte>, p: nat, s: Str)
    requires NoNul(s) && |s| < 0x7FFF_FFFF && Stored(d, p, EncodeME12(s))
    ensures LooseStringAt(d, p) == Ok((s, p + |EncodeME12(s)|))
  {
    ME12At(d, p, s);
    LooseAgrees(d, p);
  }

  /** At the end of the stream the old reader does not fail: the count
      reads as -1, and the one char as U+FFFF. */
  lemma ReadPastEnd(d: seq<byte>)
    ensures LooseInt32At(d, |d|) == (-1, |d|)
    ensures LooseStringAt(d, |d|) == Ok(([0xFFFF], |d|))
  {
    assert LooseUnits(d, |d|, 0) == ([], |d|);
  }

  // ---------------------------------------------------------------------
  // The escape codec of the INI values.

  const Backslash: Char16 := '\\' as int
  const Tab: Char16 := 9
  const CR: Char16 := 13
  const LF: Char16 := 10
  const LowerT: Char16 := 't' as int
  const LowerR: Char16 := 'r' as int
  const LowerN: Char16 := 'n' as int
  const LowerX: Char16 := 'x' as int

  /** An upper-case hex digit. */
  function HexDigit(v: nat): (r: Char16)
    requires v < 16
    ensures IsHexDigit(r) && DigitValue(r) == v
  {
    if v < 10 then '0' as int + v else 'A' as int + v - 10
  }

  /** `{(int)ch:X4}`: four upper-case hex digits, most significant first. */
  function Hex4(c: Char16): (r: Str)
    ensures |r| == 4
  {
    var q1 := c / 16;
    var q2 := q1 / 16;
    [HexDigit(q2 / 16), HexDigit(q2 % 16), HexDigit(q1 % 16), HexDigit(c % 16)]
  }

  /** What IniEncode appends for one char: backslash, tab, CR and LF get a
      two-char escape, any other char outside ' '..'~' its `\x` code, and
      the rest stands for itself. */
  function EscapeChar(c: Char16): (r: Str)
    ensures r != []
  {
    if c == Backslash then [Backslash, Backslash]
    else if c == Tab then [Backslash, LowerT]
    else if c == CR then [Backslash, LowerR]
    else if c == LF then [Backslash, LowerN]
    else if c < 0x20 || c > 0x7E then [Backslash, LowerX] + Hex4(c)
    else [c]
  }

  /** `IniEncode(str)`. */
  function EscapedValue(s: Str): (r: Str)
  {
    if s == [] then [] else EscapeChar(s[0]) + EscapedValue(s[1..])
  }

  predicate IsHexDigit(c: Char16)
  {
    '0' as int <= c <= '9' as int || 'A' as int <= c <= 'F' as int || 'a' as int <= c <= 'f' as int
  }

  function DigitValue(c: Char16): (r: nat)
    requires IsHexDigit(c)
    ensures r < 16
  {
    if c <= '9' as int then c - '0' as int
    else if c <= 'F' as int then c - 'A' as int + 10
    else c - 'a' as int + 10
  }

  /** The white space the number parser skips: space and TAB to CR. */
  predicate IsNumberWhite(c: Char16)
  {
    c == 0x20 || 9 <= c <= 13
  }

  /** The first index from i on whose char is not number white space. */
  function SkipWhite(w: Str, i: nat): (r: nat)
    requires i <= |w|
    ensures i <= r <= |w| && (r < |w| ==> !IsNumberWhite(w[r]))
    decreases |w| - i
  {
    if i < |w| && IsNumberWhite(w[i]) then SkipWhite(w, i + 1) else i
  }

  /** The first index from i on whose char is not a hex digit. */
  function SkipHex(w: Str, i: nat): (r: nat)
    requires i <= |w|
    ensures i <= r <= |w| && (r < |w| ==> !IsHexDigit(w[r]))
    ensures forall k :: i <= k < r ==> IsHexDigit(w[k])
    decreases |w| - i
  {
    if i < |w| && IsHexDigit(w[i]) then SkipHex(w, i + 1) else i
  }

  function Pow16(n: nat): (r: nat)
    ensures r >= 1
  {
    if n == 0 then 1 else 16 * Pow16(n - 1)
  }

  /** The number the hex digits ds spell, most significant first. */
  function HexValue(ds: Str): (r: nat)
    requires forall k :: 0 <= k < |ds| ==> IsHexDigit(ds[k])
    ensures r < Pow16(|ds|)
  {
    if ds == [] then 0
    else 16 * HexValue(ds[..|ds| - 1]) + DigitValue(ds[|ds| - 1])
  }

  lemma Pow16Four(n: nat)
    requires n <= 4
    ensures Pow16(n) <= 0x1_0000
  {
    if n > 0 {
      Pow16Four(n - 1);
    }
  }

  /** `uint.TryParse(w, NumberStyles.HexNumber, null, out code)` on the four
      chars after `\x`: optional white space, one or more hex digits of
      either case, optional white space, and nothing after but NULs (the
      .NET number parser accepts trailing NULs). */
  function ParseHex4(w: Str): (r: Option<Char16>)
    requires |w| == 4
  {
    var i := SkipWhite(w, 0);
    var j := SkipHex(w, i);
    var k := SkipWhite(w, j);
    if i < j && forall m :: k <= m < |w| ==> w[m] == NUL then
      Pow16Four(j - i);
      Some(HexValue(w[i..j]))
    else None
  }

  /** One iteration of IniDecode's loop on the text s that is left: the
      char it appends and how many chars it consumes. A backslash with a
      known code after it is decoded; any other backslash stands for
      itself, and the char after it is read on the next turn. */
  function DecodeStep(s: Str): (r: (Char16, nat))
    requires s != []
    ensures 1 <= r.1 <= |s|
  {
    if s[0] == Backslash && |s| > 1 then
      if s[1] == Backslash then (Backslash, 2)
      else if s[1] == LowerT then (Tab, 2)
      else if s[1] == LowerR then (CR, 2)
      else if s[1] == LowerN then (LF, 2)
      else if s[1] == LowerX && |s| > 5 && ParseHex4(s[2..6]).Some? then (ParseHex4(s[2..6]).value, 6)
      else (Backslash, 1)
    else (s[0], 1)
  }

  /** `IniDecode(str)`: one char per turn of the loop. */
  function UnescapedValue(s: Str): (r: Str)
    ensures |r| <= |s|
    decreases |s|
  {
    if s == [] then []
    else
      var step := DecodeStep(s);
      [step.0] + UnescapedValue(s[step.1..])
  }

  lemma HexDigitNotWhite(v: nat)
    requires v < 16
    ensures !IsNumberWhite(HexDigit(v))
  {
  }

  /** The value of four hex digits, most significant first. */
  lemma HexValueFour(w: Str)
    requires |w| == 4 && forall k :: 0 <= k < 4 ==> IsHexDigit(w[k])
    ensures HexValue(w) == ((DigitValue(w[0]) * 16 + DigitValue(w[1])) * 16 + DigitValue(w[2])) * 16 + DigitValue(w[3])
  {
    assert w[..3][..2][..1][..0] == [];
    assert w[..3][..2][..1] == [w[0]];
    assert w[..3][..2] == [w[0], w[1]];
    assert w[..3] == [w[0], w[1], w[2]];
  }

  /** The four digits Hex4 writes parse back as the char. */
  lemma Hex4Parses(c: Char16)
    ensures ParseHex4(Hex4(c)) == Some(c)
  {
    var w := Hex4(c);
    var q1 := c / 16;
    var q2 := q1 / 16;
    HexDigitNotWhite(q2 / 16);
    assert SkipWhite(w, 0) == 0;
    assert SkipHex(w, 3) == 4;
    assert SkipHex(w, 0) == 4;
    assert SkipWhite(w, 4) == 4;
    assert w[0..4] == w;
    HexValueFour(w);
    assert q2 / 16 * 16 + q2 % 16 == q2;
    assert q2 * 16 + q1 % 16 == q1;
    assert q1 * 16 + c % 16 == c;
  }

  /** Decoding an escaped char gives the char back and consumes exactly
      its escape, whatever follows. */
  lemma DecodeEscape(c: Char16, rest: Str)
    ensures DecodeStep(EscapeChar(c) + rest) == (c, |EscapeChar(c)|)
  {
    var s := EscapeChar(c) + rest;
    if c != Backslash && c != Tab && c != CR && c != LF && (c < 0x20 || c > 0x7E) {
      assert s[2..6] == Hex4(c);
      Hex4Parses(c);
    }
  }

  /** IniDecode inverts IniEncode on every string. */
  lemma {:induction false} ValueRoundTrip(s: Str)
    ensures UnescapedValue(EscapedValue(s)) == s
    decreases |s|
  {
    if s != [] {
      var e := EscapeChar(s[0]);
      var t := EscapedValue(s);
      DecodeEscape(s[0], EscapedValue(s[1..]));
      assert t[|e|..] == EscapedValue(s[1..]);
      ValueRoundTrip(s[1..]);
      assert [s[0]] + s[1..] == s;
    }
  }

  /** Escaped text is printable ASCII: no line break, so one value stays
      on one line. */
  lemma {:induction false} EscapedPrintable(s: Str)
    ensures forall i :: 0 <= i < |EscapedValue(s)| ==> 0x20 <= EscapedValue(s)[i] <= 0x7E
    decreases |s|
  {
    if s != [] {
      EscapedPrintable(s[1..]);
      var e, t := EscapeChar(s[0]), EscapedValue(s[1..]);
      forall i | 0 <= i < |e + t| ensures 0x20 <= (e + t)[i] <= 0x7E {
        if i >= |e| {
          assert (e + t)[i] == t[i - |e|];
        } else if |e| == 6 && i >= 2 {
          HexPrintable(s[0], i - 2);
        }
      }
    }
  }

  lemma HexPrintable(c: Char16, k: nat)
    requires k < 4
    ensures 0x20 <= Hex4(c)[k] <= 0x7E
  {
  }

  // ---------------------------------------------------------------------
  // The INI lines.

  const Pipe: Char16 := '|' as int
  const EqualsSign: Char16 := '=' as int
  const OpenBracket: Char16 := '[' as int
  const CloseBracket: Char16 := ']' as int

  /** `$"[{fileName}|{sectionName}]"`: names are written as they are. */
  function HeaderText(fileName: Str, sectionName: Str): Str
  {
    [OpenBracket] + fileName + [Pipe] + sectionName + [CloseBracket]
  }

  /** `$"{str}={IniEncode(str2)}"`: only the value is escaped. */
  function ItemText(name: Str, value: Str): Str
  {
    name + [EqualsSign] + EscapedValue(value)
  }

  function EventText(e: Event): Str
  {
    match e
    case Header(fileName, sectionName) => HeaderText(fileName, sectionName)
    case Value(name, value) => ItemText(name, value)
  }

  /** The lines Decode writes for a run of header and field events. */
  function Text(events: seq<Event>): (r: seq<Str>)
    ensures |r| == |events|
  {
    if events == [] then [] else [EventText(events[0])] + Text(events[1..])
  }

  lemma {:induction false} TextAppend(a: seq<Event>, b: seq<Event>)
    ensures Text(a + b) == Text(a) + Text(b)
    decreases |a|
  {
    if a == [] {
      assert a + b == b;
    } else {
      assert (a + b)[0] == a[0] && (a + b)[1..] == a[1..] + b;
      TextAppend(a[1..], b);
    }
  }

  predicate IsBracket(c: Char16)
  {
    c == OpenBracket || c == CloseBracket
  }

  /** The index of the first bracket in s, or |s|. */
  function FirstBracket(s: Str): (r: nat)
    ensures r <= |s| && (r < |s| ==> IsBracket(s[r]))
    ensures forall k :: 0 <= k < r ==> !IsBracket(s[k])
  {
    if s == [] then 0
    else if IsBracket(s[0]) then 0
    else 1 + FirstBracket(s[1..])
  }

  /** `^\[([^][]+)\]`: a '[' at the start, then one or more chars that are
      not brackets, then ']'; what follows is not looked at. Since the
      group cannot hold a bracket, the match ends at the first bracket
      after the start. */
  function SectionMatch(line: Str): (r: Option<Str>)
    ensures r.Some? ==> r.value != [] && |r.value| + 2 <= |line| && line[0] == OpenBracket &&
                        line[1..|r.value| + 1] == r.value && line[|r.value| + 1] == CloseBracket
    ensures r.Some? ==> forall k :: 0 <= k < |r.value| ==> !IsBracket(r.value[k])
  {
    if line != [] && line[0] == OpenBracket then
      var k := FirstBracket(line[1..]);
      if 0 < k < |line| - 1 && line[1 + k] == CloseBracket then Some(line[1..1 + k]) else None
    else None
  }

  /** What Encode's loop makes of one line, numbered lineNumber: nothing
      for a blank or comment line, a header split at its first '|' into a
      non-empty file name and a section name, or a field split at its first
      '=' into a non-empty name and a decoded value, or the exception. */
  function ParseLine(line: Str, lineNumber: nat): (r: Result<Option<Event>>)
    ensures r.Ok? ==> (r.value.None? <==> Ini.Skipped(line))
    ensures r.Ok? && r.value.Some? && r.value.value.Header? ==> r.value.value.fileName != [] && Pipe !in r.value.value.fileName
    ensures r.Ok? && r.value.Some? && r.value.value.Value? ==> r.value.value.name != [] && EqualsSign !in r.value.value.name
  {
    if Ini.Skipped(line) then Ok(None)
    else
      match SectionMatch(line)
      case Some(name) =>
        var index := Ini.IndexOf(name, Pipe);
        if index <= 0 then Err(IniNoCurrentFile(lineNumber))
        else Ok(Some(Header(name[..index], name[index + 1..])))
      case None =>
        var index := Ini.IndexOf(line, EqualsSign);
        if index <= 0 then Err(IniInvalidKeyName(lineNumber))
        else Ok(Some(Value(line[..index], UnescapedValue(line[index + 1..]))))
  }

  /** An event whose line parses back as itself: a header with a non-empty
      file name free of '|' and brackets and a section name free of
      brackets, or a field whose name has no '=', does not start with '['
      and is not blank or a comment. */
  predicate Parses(e: Event)
  {
    match e
    case Header(fileName, sectionName) =>
      fileName != [] && Pipe !in fileName &&
      (forall k :: 0 <= k < |fileName| ==> !IsBracket(fileName[k])) &&
      (forall k :: 0 <= k < |sectionName| ==> !IsBracket(sectionName[k]))
    case Value(name, _) => !Ini.Skipped(name) && EqualsSign !in name && name[0] != OpenBracket
  }

  lemma {:induction false} NotSkippedPrefix(a: Str, b: Str)
    requires !Ini.Skipped(a)
    ensures !Ini.Skipped(a + b)
    decreases |a|
  {
    assert (a + b)[0] == a[0];
    if Ini.IsBlank(a[0]) {
      assert (a + b)[1..] == a[1..] + b;
      NotSkippedPrefix(a[1..], b);
    }
  }

  /** The header text is '[', the bracket-free name, ']'. */
  lemma HeaderMatches(fileName: Str, sectionName: Str)
    requires Parses(Header(fileName, sectionName))
    ensures SectionMatch(HeaderText(fileName, sectionName)) == Some(fileName + [Pipe] + sectionName)
  {
    var line := HeaderText(fileName, sectionName);
    var name := fileName + [Pipe] + sectionName;
    assert line == [OpenBracket] + name + [CloseBracket];
    var t := line[1..];
    assert t == name + [CloseBracket];
    forall m | 0 <= m < |name| ensures !IsBracket(name[m]) {
      if m < |fileName| {
        assert name[m] == fileName[m];
      } else if m > |fileName| {
        assert name[m] == sectionName[m - |fileName| - 1];
      }
    }
    BracketFreePrefix(name, [CloseBracket]);
    assert line[1..1 + |name|] == name;
  }

  lemma {:induction false} BracketFreePrefix(a: Str, b: Str)
    requires forall k :: 0 <= k < |a| ==> !IsBracket(a[k])
    requires b != [] && IsBracket(b[0])
    ensures FirstBracket(a + b) == |a|
    decreases |a|
  {
    if a == [] {
      assert a + b == b;
    } else {
      assert (a + b)[1..] == a[1..] + b;
      BracketFreePrefix(a[1..], b);
    }
  }

  /** The header name splits at its first '|' into the file name and
      the section name. */
  lemma HeaderSplits(fileName: Str, sectionName: Str)
    requires Pipe !in fileName
    ensures Ini.IndexOf(fileName + [Pipe] + sectionName, Pipe) == |fileName|
    ensures (fileName + [Pipe] + sectionName)[..|fileName|] == fileName
    ensures (fileName + [Pipe] + sectionName)[|fileName| + 1..] == sectionName
  {
    Ini.IndexOfAfter(fileName, Pipe, sectionName);
  }

  lemma HeaderParses(fileName: Str, sectionName: Str, lineNumber: nat)
    requires Parses(Header(fileName, sectionName))
    ensures ParseLine(HeaderText(fileName, sectionName), lineNumber) == Ok(Some(Header(fileName, sectionName)))
  {
    var line := HeaderText(fileName, sectionName);
    assert !Ini.Skipped(line) by {
      assert line[0] == OpenBracket;
    }
    HeaderMatches(fileName, sectionName);
    HeaderSplits(fileName, sectionName);
  }

  /** The item text splits at its first '=' into the name and the
      escaped value. */
  lemma ItemSplits(name: Str, value: Str)
    requires EqualsSign !in name
    ensures Ini.IndexOf(ItemText(name, value), EqualsSign) == |name|
    ensures ItemText(name, value)[..|name|] == name
    ensures ItemText(name, value)[|name| + 1..] == EscapedValue(value)
  {
    Ini.IndexOfAfter(name, EqualsSign, EscapedValue(value));
  }

  lemma ItemParses(name: Str, value: Str, lineNumber: nat)
    requires Parses(Value(name, value))
    ensures ParseLine(ItemText(name, value), lineNumber) == Ok(Some(Value(name, value)))
  {
    ItemIsField(name, value);
    ItemSplits(name, value);
    ValueRoundTrip(value);
  }

  /** An item line is neither skipped nor a header. */
  lemma ItemIsField(name: Str, value: Str)
    requires Parses(Value(name, value))
    ensures !Ini.Skipped(ItemText(name, value)) && SectionMatch(ItemText(name, value)) == None
  {
    NotSkippedPrefix(name, [EqualsSign]);
    NotSkippedPrefix(name + [EqualsSign], EscapedValue(value));
    assert ItemText(name, value)[0] == (name + [EqualsSign])[0] == name[0];
  }

  /** Every line Decode writes for an event Encode reads back parses as
      that event. */
  lemma EventParses(e: Event, lineNumber: nat)
    requires Parses(e)
    ensures ParseLine(EventText(e), lineNumber) == Ok(Some(e))
  {
    match e
    case Header(fileName, sectionName) => HeaderParses(fileName, sectionName, lineNumber);
    case Value(name, value) => ItemParses(name, value, lineNumber);
  }
}
