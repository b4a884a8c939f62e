/** Results of operations that throw in the original, and optional values. */
module Wrappers {

  datatype Option<+T> = None | Some(value: T)

  /** The reasons for which the modelled operations throw. */
  datatype Error =
    | EndOfData          // BigSize read from an empty buffer
    | UnexpectedEnd      // BigSize cut short
    | NotCanonical       // BigSize longer than necessary
    | OutOfRange         // an index or a slice outside its array
    | ArgumentTooLong    // an argument longer than its destination
    | BothKeysGiven
    | NoKeyGiven
    | HmacMismatch

  datatype Result<+T> = Ok(value: T) | Err(error: Error) {
    predicate IsFailure() {
      Err?
    }

    function PropagateFailure<U>(): Result<U>
      requires Err?
    {
      Err(error)
    }

    function Extract(): T
      requires Ok?
    {
      value
    }
  }
}
