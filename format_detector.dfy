/** CoalescedFormatDetector: the format of an archive guessed from its first
    twelve bytes. */
module FormatDetection {
  import opened Wrappers
  import opened Primitives
  import opened Formats
  import opened ByteCodec

  /** `ME3Signature`, the first word of an ME3 archive ('mrmf' on disk). */
  const ME3Signature: int32 := 0x666d726d

  /** The buffer Detect reads into: the file's first twelve bytes, and zeros
      where the file is shorter. */
  function Prefix(file: seq<byte>): (buf: seq<byte>)
    ensures |buf| == 12
    ensures forall i :: 0 <= i < 12 ==> buf[i] == if i < |file| then file[i] else 0
  {
    if |file| >= 12 then file[..12] else file + seq(12 - |file|, _ => 0)
  }

  /** `Detect`. The file is given as its contents, None when it does not
      exist. */
  function Detect(file: Option<seq<byte>>): (r: CoalescedFormat)
  {
    match file
    case None => CoalescedUnknown
    case Some(contents) =>
      var buf := Prefix(contents);
      if buf[0] == 'm' as int && buf[1] == 'r' as int && buf[2] == 'm' as int && buf[3] == 'f' as int then CoalescedME3LE
      else
        var num2 := DecodeInt32(buf[0], buf[1], buf[2], buf[3]);
        if 0 < num2 < 256 then
          var num3 := DecodeInt32(buf[4], buf[5], buf[6], buf[7]);
          if num3 < 0 && num3 > -260 then CoalescedME12LE else CoalescedUnknown
        else CoalescedUnknown
  }

  /** The four signature bytes are what WriteInt emits for ME3Signature. */
  lemma SignatureBytes()
    ensures Int32Bytes(ME3Signature) == ['m' as int, 'r' as int, 'm' as int, 'f' as int]
  {
  }

  /** A word whose top byte is zero reads as a non-negative int. */
  lemma TopByteZero(b0: byte, b1: byte, b2: byte)
    ensures DecodeInt32(b0, b1, b2, 0) >= 0
  {
  }

  /** Detection as ME3 agrees with the reader's signature check: the file
      is taken for ME3 exactly when its first int reads as ME3Signature. */
  lemma DetectME3(contents: seq<byte>)
    ensures Detect(Some(contents)) == CoalescedME3LE <==> ReadInt32At(contents, 0) == Ok((ME3Signature, 4))
  {
    var buf := Prefix(contents);
    if |contents| >= 4 {
      if ReadInt32At(contents, 0) == Ok((ME3Signature, 4)) {
        var u := DecodeUInt32(contents[0], contents[1], contents[2], contents[3]);
        SignatureBytes();
        WrapBits32(u);
        DecodeUInt32RoundTrip(contents[0], contents[1], contents[2], contents[3]);
        assert Int32Bytes(ME3Signature) == [contents[0], contents[1], contents[2], contents[3]];
      }
    } else {
      assert buf[3] == 0;
    }
  }

  /** Detection as ME1/2 LE: a file count in 1..255, then the negative
      string prefix of the first file name, above -260; both ints must be
      in the file, since a zero byte where the file ends leaves the second
      non-negative. */
  lemma DetectME12(contents: seq<byte>)
    ensures Detect(Some(contents)) == CoalescedME12LE <==>
      |contents| >= 8 &&
      0 < DecodeInt32(contents[0], contents[1], contents[2], contents[3]) < 256 &&
      -260 < DecodeInt32(contents[4], contents[5], contents[6], contents[7]) < 0
  {
    var buf := Prefix(contents);
    if |contents| < 8 {
      assert buf[7] == 0;
      TopByteZero(buf[4], buf[5], buf[6]);
    } else {
      assert buf[..8] == contents[..8];
    }
  }

  /** Input under four bytes is never ME3, and under eight never ME1/2 LE. */
  lemma ShortInput(contents: seq<byte>)
    ensures |contents| < 4 ==> Detect(Some(contents)) != CoalescedME3LE
    ensures |contents| < 8 ==> Detect(Some(contents)) != CoalescedME12LE
  {
    DetectME3(contents);
    DetectME12(contents);
  }

  /** A missing file is Unknown. */
  lemma MissingFile()
    ensures Detect(None) == CoalescedUnknown
  {
  }
}
