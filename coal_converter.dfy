/** `CoalConverter.Create`: the factory that picks the newer converter for a
    format tag (CoalConverter.cs). */
module Converters {
  import opened Wrappers
  import opened Primitives
  import opened Formats
  import opened Document
  import ME2
  import ME3
  import ME3Layout
  import ME12LE

  /** The three concrete converters the factory can return. */
  datatype ConverterKind = ME2Kind | ME3Kind | ME12LEKind

  /** The format each converter's `Load` stamps on the document it returns. */
  function FormatOf(kind: ConverterKind): CoalFormat
  {
    match kind
    case ME2Kind => MassEffect2
    case ME3Kind => MassEffect3
    case ME12LEKind => MassEffect12LE
  }

  /** Every known format has its converter, the converter is the one for that
      format, and any other tag is refused. */
  function Create(format: CoalFormat): (r: Result<ConverterKind>)
    ensures r.Ok? <==> format != Unknown
    ensures r.Ok? ==> FormatOf(r.value) == format
    ensures r.Err? ==> r.error == UnknownCoalescedFormat
  {
    match format
    case MassEffect2 => Ok(ME2Kind)
    case MassEffect3 => Ok(ME3Kind)
    case MassEffect12LE => Ok(ME12LEKind)
    case Unknown => Err(UnknownCoalescedFormat)
  }

  /** What the chosen converter's `Load` reads from a byte stream. */
  function LoadSpec(kind: ConverterKind, contents: seq<byte>): Result<seq<CoalFile>>
  {
    match kind
    case ME2Kind => ME2.LoadBytes(contents)
    case ME3Kind => ME3Layout.LoadBytes(contents)
    case ME12LEKind => ME12LE.LoadBytes(ME12LE.ME12, contents)
  }

  /** `Load` through the abstract converter: the document is the one the
      concrete converter reads, tagged with the format the factory was given. */
  method Load(kind: ConverterKind, contents: seq<byte>) returns (r: Result<CoalDocument>)
    ensures r.Ok? ==> fresh(r.value) && r.value.format == FormatOf(kind)
    ensures LoadSpec(kind, contents) == if r.Ok? then Ok(r.value.files) else Err(r.error)
  {
    match kind
    case ME2Kind =>
      r := ME2.Load(contents);
    case ME3Kind =>
      var converter := new ME3.ME3Converter();
      r := converter.Load(contents);
    case ME12LEKind =>
      r := ME12LE.Load(contents);
  }

  /** Creating a converter for a format and loading with it yields a document
      of that format. */
  method CreateAndLoad(format: CoalFormat, contents: seq<byte>) returns (r: Result<CoalDocument>)
    ensures format == Unknown ==> r == Err(UnknownCoalescedFormat)
    ensures r.Ok? ==> fresh(r.value) && r.value.format == format
    ensures format != Unknown ==>
              LoadSpec(Create(format).value, contents) == if r.Ok? then Ok(r.value.files) else Err(r.error)
  {
    var kind :- Create(format);
    r := Load(kind, contents);
  }
}
