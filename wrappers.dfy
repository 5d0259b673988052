/** Failure-carrying values. */
module Wrappers {

  datatype Option<+T> = None | Some(value: T)

  /** The two results of a Go call that returns `(value, error)`: a value and no
      error, or an error and no value. */
  datatype Result<+T, +E> = Ok(value: T) | Err(error: E)
}
