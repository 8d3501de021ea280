/** Failure-carrying results shared by every module of the model. */
module Wrappers {

  datatype Option<T> = None | Some(value: T)

  /** The value of an operation, or the exception the source would throw instead. */
  datatype Result<T, E> = Ok(value: T) | Err(error: E)
}
