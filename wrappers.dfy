/** Failure-carrying values shared by the parser and the URL codec. */
module Wrappers {

  /** A value that may be absent: the outcome of a lookup or of a parse that can fail. */
  datatype Option<+T> = None | Some(value: T)

  /** The outcome of an operation that either succeeds with a value or throws a named error. */
  datatype Result<+R, +E> = Success(value: R) | Failure(error: E)
}
