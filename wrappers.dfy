/** Java's nullable boxes and thrown exceptions, as values. */
module Wrappers {

  /** A nullable reference: `None` is Java's `null`. */
  datatype Option<+T> = None | Some(value: T)

  /** A call that either returns a value or throws an error. */
  datatype Result<+R, +E> = Success(value: R) | Failure(error: E)

  /** A call that either completes normally or throws an error. */
  datatype Outcome<+E> = Pass | Fail(error: E)
}
