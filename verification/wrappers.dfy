/** Failure-carrying result types shared by the other modules. */
module Wrappers {

  /** A value that may be absent: a regular-expression match that may fail. */
  datatype Option<+T> = None | Some(value: T)

  /** A computation that either succeeds with a value or aborts with an error value. */
  datatype Result<+R, +E> = Ok(value: R) | Err(error: E)
}
