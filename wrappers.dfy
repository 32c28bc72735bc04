/** Failure-carrying result types shared by the modules of this project. */
module Wrappers {

  datatype Option<+T> = None | Some(value: T)

  /** The outcome of an operation that can raise an error (elog/ereport ERROR). */
  datatype Result<+T, +E> = Ok(value: T) | Err(error: E)
}
