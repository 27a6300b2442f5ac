/** Results of the reader's operations: either a value or the exception the
    Python reader would raise. */
module Outcomes {

  /** The exceptions that reading a container can raise. */
  datatype Error =
    | InvalidFileHeader     // ValueError("Invalid file header"): fewer than 78 header bytes
    | StructError           // struct.error: a big-endian field unpacked from too few bytes
    | ReadLengthError       // ValueError from a buffered read given a length below -1
    | IndexOutOfRange       // IndexError: a back-reference read output[0] of an empty output
    | HuffCdicUnsupported   // ValueError("Huff/CDIC compression not supported in basic mode")

  /** A failure-compatible result, usable with `:-`. */
  datatype Result<+T> = Ok(value: T) | Err(error: Error) {

    predicate IsFailure() {
      Err?
    }

    function PropagateFailure<U>(): Result<U>
      requires Err?
    {
      Err(error)
    }

    function Extract(): T
      requires Ok?
    {
      value
    }
  }

  datatype Option<+T> = None | Some(value: T)
}
