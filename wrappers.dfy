/** The plain `Option` and `Result` datatypes shared by the modules of this model. */
module Wrappers {

  datatype Option<+T> = None | Some(value: T)

  /** The value of a computation that can fail with one of the source's errors. */
  datatype Result<+T, +E> = Success(value: T) | Failure(error: E)
}
