/** Failure-carrying wrappers used across the model: Java's nullable references
    and its exceptions become these values. */
module Wrappers {

  /** A nullable reference: `None` stands for Java's `null`. */
  datatype Option<+T> = None | Some(value: T)

  /** The result of a Java call that either returns a value or throws. */
  datatype Result<+R, +E> = Success(value: R) | Failure(error: E)

  /** The result of a Java call that returns nothing useful or throws. */
  datatype Outcome<+E> = Pass | Fail(error: E)
}
