/** Failure-carrying datatypes used for the source's `None` returns and raised errors. */
module Wrappers {

  /** A value or nothing; stands for a Python function that may return `None`. */
  datatype Option<+T> = None | Some(value: T)

  /** A value or an error; stands for a Python function that may raise. */
  datatype Result<+T, +E> = Success(value: T) | Failure(error: E)
}
