/** Optional values and results with an error, shared by every module. */
module Outcomes {
  datatype Option<T> = None | Some(value: T)

  /** The outcome of an operation that can fail; `E` says why it failed. */
  datatype Result<T, E> = Ok(value: T) | Err(error: E)

  /** The outcome of an operation that changes state and returns nothing. */
  datatype Outcome<E> = Pass | Fail(error: E)
}
