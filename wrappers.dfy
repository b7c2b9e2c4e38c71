/** Failure-carrying result types used in place of Ruby's exceptions and nil returns. */
module Wrappers {

  datatype Option<+T> = None | Some(value: T)

  datatype Result<+R, +E> = Success(value: R) | Failure(error: E)

  /** A pass/fail outcome that carries no value on success. */
  datatype Outcome<+E> = Pass | Fail(error: E)
}
