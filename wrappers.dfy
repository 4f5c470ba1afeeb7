/** Option and Result: the absent provider field and the Python exception, as values. */
module Wrappers {

  /** A value that may be missing (a key absent from a provider's info snapshot). */
  datatype Option<+T> = None | Some(value: T)

  /** The outcome of an operation that in the Python code raises an exception on bad input. */
  datatype Result<+R, +E> = Success(value: R) | Failure(error: E)
}
