/** Failure-carrying result types used for the source's optional initialisers and thrown errors. */
module Wrappers {

  /** Swift's `Optional`: `init?` and lookups that may find nothing. */
  datatype Option<+T> = None | Some(value: T)

  /** A value, or the error a throwing Swift function raised. */
  datatype Result<+T, +E> = Ok(value: T) | Err(error: E)

  /** The outcome of a throwing Swift function that returns nothing. */
  datatype Outcome<+E> = Pass | Fail(error: E)
}
