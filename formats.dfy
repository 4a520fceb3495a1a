/** The format tags of the two code generations. */
module Formats {

  /** `CoalFormat`, the newer converters' tag. Its declaration is not part of
      this model; these are the members the code names, plus a catch-all for
      any other value of the enum. */
  datatype CoalFormat = MassEffect12LE | MassEffect2 | MassEffect3 | Unknown

  /** `CoalescedFormat`, the older tag (CoalescedFormatDetector.cs). */
  datatype CoalescedFormat = CoalescedUnknown | CoalescedME12LE | CoalescedME3LE
}
