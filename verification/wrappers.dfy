/** Failure-carrying values used across the model: `Option` for the source's
    nullable results and `Result` for operations that can fail. */
module Wrappers {

  datatype Option<+T> = None | Some(value: T)

  datatype Result<+R, +E> = Success(value: R) | Failure(error: E)
}
