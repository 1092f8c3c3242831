/** Failure-carrying values used across the model. */
module Wrappers {

  /** A value that may be absent. */
  datatype Option<T> = None | Some(value: T)

  /** A value or an error message: the model's stand-in for a raised exception. */
  datatype Result<T> = Ok(value: T) | Err(error: string)
}
