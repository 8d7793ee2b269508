/** Failure-carrying result types shared by the modules of this model. */
module Wrappers {

  /** An optional argument: Python's `None` or a value. */
  datatype Option<T> = None | Some(value: T)

  /** The outcome of an operation that may raise an exception. */
  datatype Result<T, E> = Ok(value: T) | Err(error: E)
}
