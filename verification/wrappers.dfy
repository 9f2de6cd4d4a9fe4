/** Failure-carrying datatypes shared by the whole model. */
module Wrappers {

  /** A value that may be absent: the model's stand-in for a NULL pointer. */
  datatype Option<+T> = None | Some(value: T)

  /** The outcome of an operation that can fail with an error of type `E`. */
  datatype Result<+T, +E> = Ok(value: T) | Err(error: E)
}
