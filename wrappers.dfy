/** Failure handling shared by every part of the converter.
    Each exception class the C# code throws becomes one constructor of `Error`;
    an operation that can throw returns a `Result`. */
module Wrappers {

  /** Why a `CoalescedReadException` was raised. */
  datatype ReadFailure =
    | BadSignature
    | BadVersion(version: int)
    | PositivePrefix(prefix: int)
    | NegativePrefix(prefix: int)
    | CrcMismatch(stored: int, computed: int)

  datatype Error =
    | EndOfStream                     // EndOfStreamException
    | CoalescedRead(why: ReadFailure) // CoalescedReadException (and the older CoelescedReadException)
    | UnknownCoalescedFormat          // UnknownCoalescedFormatException
    | TooManyStrings                  // TooManyStringsException
    | UnsupportedValueType(tag: int)  // UnsupportedValueType
    | IniNoCurrentFile(line: int)     // IniNoCurrentFileException
    | IniInvalidKeyName(line: int)    // IniInvalidKeyNameException
    | IniNoCurrentSection(line: int)  // IniNoCurrentSectionException
    | ArgumentOutOfRange              // ArgumentOutOfRangeException
    | ArgumentTooLong                 // ArgumentException for an over-long string
    | IndexOutOfRange                 // an array or list index fault
    | KeyNotFound                     // a dictionary lookup of a missing key
    | Overflow                        // OverflowException (an array of negative size)
    | ArgumentNull                    // ArgumentNullException

  datatype Result<+T> = Ok(value: T) | Err(error: Error) {
    predicate IsFailure() { Err? }

    function PropagateFailure<U>(): Result<U>
      requires Err?
    {
      Err(error)
    }

    function Extract(): T
      requires Ok?
    {
      value
    }
  }

  /** The outcome of a loop run for at most a given number of rounds: None
      when it has not stopped by then. */
  datatype Option<+T> = None | Some(value: T)
}
