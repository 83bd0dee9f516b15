/** Failure-carrying results shared by the model: `Option` for Python's `None`
    default, `Result` for an exception or an error payload. */
module Wrappers {

  datatype Option<+T> = None | Some(value: T)

  datatype Result<+T, +E> = Success(value: T) | Failure(error: E)
}
