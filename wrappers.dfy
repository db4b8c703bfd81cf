/** Option and Result values standing for Java's `Optional` and for thrown exceptions. */
module Wrappers {

  /** `Optional<T>`: `None` is `Optional.empty()`. */
  datatype Option<+T> = None | Some(value: T)

  /** A value or the reason it could not be produced. */
  datatype Result<+T, +E> = Success(value: T) | Failure(error: E)
}
