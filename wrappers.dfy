/** Option, Result and Outcome: the null references and exceptions of the
    modelled code, made explicit as values. */
module Wrappers {

  /** A reference that may be null: `None` stands for null. */
  datatype Option<+T> = None | Some(value: T)

  /** The value of a computation, or the exception it raised. */
  datatype Result<+T, +E> = Success(value: T) | Failure(error: E)

  /** Completion of an operation that returns nothing: it returns, or it throws. */
  datatype Outcome<+E> = Pass | Fail(error: E)
}
