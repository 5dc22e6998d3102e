/**
 * Failure-carrying result types. The Python code signals errors by raising
 * (IndexError, KeyError, ValueError on an empty array); the model returns
 * an `Err` naming the condition instead.
 */
module Wrappers {

  datatype Option<+T> = None | Some(value: T) {
    predicate IsFailure() { None? }

    function PropagateFailure<U>(): Option<U>
      requires None?
    {
      None
    }

    function Extract(): T
      requires Some?
    {
      value
    }
  }

  /** The exceptions of the modelled code that a caller can observe. */
  datatype Error =
    | IndexOutOfRange   // IndexError / KeyError on a positional lookup
    | EmptyArray        // np.min / np.max / t[[0, -1]] of an empty array
    | LengthMismatch    // extended-slice assignment with the wrong length
    | BadDigits         // int(...) or strptime(...) on text that is not a number
    | MissingKey        // dict / dataset lookup of an absent key
    | DateOutOfRange    // datetime arithmetic leaving years 1..9999 (OverflowError)
    | BadDate           // datetime(...) built with a field out of range (ValueError)
    | Unbound           // a local name read before any branch assigned it

  datatype Result<+R> = Ok(value: R) | Err(error: Error) {
    predicate IsFailure() { Err? }

    function PropagateFailure<U>(): Result<U>
      requires Err?
    {
      Err(error)
    }

    function Extract(): R
      requires Ok?
    {
      value
    }
  }
}
