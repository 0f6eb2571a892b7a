/** Failure-carrying result types shared by the DAMDFE model. */
module Wrappers {

  /** A value that may be absent, as Python's `None`. */
  datatype Option<+T> = None | Some(value: T)

  /** A computation that either yields a value or raises a Python exception. */
  datatype Result<+R, +E> = Success(value: R) | Failure(error: E)
}
