/** Failure-carrying datatypes shared by the other modules. */
module Wrappers {

  /** A value that may be absent (JavaScript `undefined` / `null`). */
  datatype Option<+T> = None | Some(value: T)

  /** The outcome of an operation that either yields a value or rejects with an error. */
  datatype Result<+T, +E> = Ok(value: T) | Err(error: E)
}
