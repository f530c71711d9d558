/** Values that stand in for Java's null references and thrown exceptions. */
module Wrappers {

  /** A reference that may be null: `None` is null. */
  datatype Option<+T> = None | Some(value: T)

  /** The outcome of a call that either returns normally or throws. */
  datatype Result<+T, +E> = Success(value: T) | Failure(error: E)
}
