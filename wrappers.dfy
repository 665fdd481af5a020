/** Option and Result, the failure-carrying values used by the model. */
module Wrappers {

  datatype Option<+T> = None | Some(value: T)

  /** Either a value or the Python exception that the operation raises. */
  datatype Result<+T, +E> = Ok(value: T) | Err(error: E)
}
