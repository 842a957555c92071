/** Failure-carrying wrappers shared by the puzzle modules. */
module Wrappers {

  /** Python's `None`-or-value results. */
  datatype Option<+T> = None | Some(value: T)

  /** An operation that either produces a value or raises an error. */
  datatype Result<+T, +E> = Ok(value: T) | Err(error: E)
}
