/** Failure-carrying values for the places where the program throws an exception. */
module Wrappers {

  datatype Option<T> = None | Some(value: T)

  /** A value, or the exception that was thrown instead of returning it. */
  datatype Result<T, E> = Success(value: T) | Failure(error: E)

  /** The outcome of a `void` method that may throw. */
  datatype Outcome<E> = Pass | Fail(error: E)
}
