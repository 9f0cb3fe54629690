/** Failure-compatible results shared by the models of the Go error returns. */
module Wrappers {

  datatype Result<+T, +E> = Success(value: T) | Failure(error: E)

  datatype Option<+T> = None | Some(value: T)
}
