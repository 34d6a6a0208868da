/** Failure-compatible result types used for the source's exceptions and error returns. */
module Wrappers {

  datatype Option<+T> = None | Some(value: T)

  /** A value, or the error the source raises or returns instead of it. */
  datatype Result<+R, +E> = Success(value: R) | Failure(error: E)

  /** The outcome of a check that returns nothing on success. */
  datatype Outcome<+E> = Pass | Fail(error: E)
}
