/** Failure-compatible wrappers used across the model: `Option` for the
    `T | undefined` results of the source, `Result` for calls that throw. */
module Wrappers {

  datatype Option<+T> = None | Some(value: T)

  datatype Result<+R, +E> = Success(value: R) | Failure(error: E)
}
