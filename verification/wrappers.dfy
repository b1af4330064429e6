/** Failure-compatible result types shared by the modules of this model. */
module Wrappers {

  /** A value that may be absent, as Python's `None` or a present value. */
  datatype Option<+T> = None | Some(value: T)

  /** The outcome of an operation that returns a value or raises an exception. */
  datatype Result<+T, +E> = Success(value: T) | Failure(error: E)

  /** The outcome of an operation that returns nothing or raises an exception. */
  datatype Outcome<+E> = Pass | Fail(error: E)
}
