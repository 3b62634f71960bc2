/** Outcomes of the codec's operations: a value, or the error the codec throws. */
module Errors {

  /** The failures the codec can report. */
  datatype Error =
    | NotImplemented   // `notImplemented()`: a reserved header or an unsupported value
    | Truncated        // a read past the end of the input buffer
    | ReferenceError   // the unqualified `latestBuffer` reached when a segment fills
    | InvalidTag       // a semantic tag that is not a non-negative integer
    | Malformed        // additional info 31 under major type 0 or 1

  datatype Option<+T> = None | Some(value: T)

  /** A value or an error; usable with `:-`. */
  datatype Result<+T> = Ok(value: T) | Err(error: Error) {

    predicate IsFailure() {
      Err?
    }

    function PropagateFailure<U>(): Result<U>
      requires Err?
    {
      Err(error)
    }

    function Extract(): T
      requires Ok?
    {
      value
    }
  }
}
