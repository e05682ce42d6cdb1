/** Option and Result values used for the error paths of the model. */
module Wrappers {

  datatype Option<+T> = None | Some(value: T)

  /** A computation that either succeeds with a value or fails with an error
      (the Python program raises an exception in the failing case). */
  datatype Result<+R, +E> = Ok(value: R) | Err(error: E)
}
