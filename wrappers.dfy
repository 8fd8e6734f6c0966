/** Failure-carrying results shared by the modules of this model. */
module Wrappers {

  /** A value that may be absent. */
  datatype Option<T> = None | Some(value: T)

  /** The outcome of an operation that either yields a value or reports an error. */
  datatype Result<T, E> = Ok(value: T) | Err(error: E)
}
