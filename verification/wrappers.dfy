/** The two outcome types of the model. Python signals a missing value with
    `None` and an error by raising; the model returns them instead. Both types
    support the `:-` operator, so a failing step ends the computation the way
    an uncaught exception ends the Python function. */
module Wrappers {

  /** A value that may be absent: a regular-expression match, a dictionary
      entry, a search position. */
  datatype Option<T> = None | Some(value: T) {
    predicate IsFailure() { None? }
    function PropagateFailure<U>(): Option<U> requires None? { None }
    function Extract(): T requires Some? { value }
  }

  /** The value a Python function returns, or the exception it raises. */
  datatype Result<R, E> = Success(value: R) | Failure(error: E) {
    predicate IsFailure() { Failure? }
    function PropagateFailure<U>(): Result<U, E> requires Failure? { Failure(error) }
    function Extract(): R requires Success? { value }
  }
}
