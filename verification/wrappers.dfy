/** Failure-compatible wrappers standing in for Java's nullable references and exceptions. */
module Wrappers {

  /** A nullable reference: `None` is Java's `null`. */
  datatype Option<+T> = None | Some(value: T)

  /** The outcome of a call that may throw instead of returning. */
  datatype Result<+T, +E> = Success(value: T) | Failure(error: E)
}
