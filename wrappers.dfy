/** Failure-carrying result types used instead of the source's THROW and error returns. */
module Wrappers {

  datatype Option<+T> = None | Some(value: T)

  /** A computation that yields a value or an error. */
  datatype Result<+T, +E> = Ok(value: T) | Err(error: E)

  /** A check that passes or fails with an error. */
  datatype Outcome<+E> = Pass | Fail(error: E)
}
