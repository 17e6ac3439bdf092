/** Failure-carrying datatypes shared by every module of the model. */
module Wrappers {

  /** A value that may be absent, as a C NULL return or a Python `None`. */
  datatype Option<+T> = None | Some(value: T)

  /** A computation that either produced a value or stopped with an error. */
  datatype Result<+T, +E> = Ok(value: T) | Err(error: E)
}
