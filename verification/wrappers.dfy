/** Failure-carrying values used by the model: Option for "maybe absent",
    Result for an operation that either succeeds or raises a named error. */
module Wrappers {

  datatype Option<+T> = None | Some(value: T)

  datatype Result<+T, +E> = Ok(value: T) | Err(error: E)
}
