/** Failure-carrying result types shared by every module of the model. */
module Wrappers {

  /** A value that may be absent: Python's `None`, JavaScript's `undefined`/`null`. */
  datatype Option<+T> = None | Some(value: T)

  /** Either a value or the error the source raises or returns instead. */
  datatype Result<+T, +E> = Ok(value: T) | Err(error: E)
}
