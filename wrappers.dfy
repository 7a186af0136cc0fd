/** Failure-carrying values used by every stage of the gateway. */
module Wrappers {

  datatype Option<+T> = None | Some(value: T)

  datatype Result<+R, +E> = Ok(value: R) | Err(error: E)

  /** A check that either passes or names why it failed. */
  datatype Outcome<+E> = Pass | Fail(error: E)
}
