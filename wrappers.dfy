/** Option and Result values standing in for Java's nullable references
    and for the exceptions the order service throws. */
module Wrappers {

  /** A nullable value: `None` is Java's `null`. */
  datatype Option<+T> = None | Some(value: T)

  /** The outcome of a service call that returns a value or fails. */
  datatype Result<+R, +E> = Success(value: R) | Failure(error: E)

  /** The outcome of a service call that returns nothing (`void`) or fails. */
  datatype Outcome<+E> = Pass | Fail(error: E)
}
