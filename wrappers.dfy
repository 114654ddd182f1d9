/** Option and Result values used where the Go code returns nil or panics. */
module Wrappers {

  datatype Option<+T> = None | Some(value: T)

  datatype Result<+R, +E> = Success(value: R) | Failure(error: E)

  /** The outcome of a step that changes state and may abort. */
  datatype Outcome<+E> = Pass | Fail(error: E)
}
