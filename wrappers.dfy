/** The outcome of an operation that may raise: a value, or the error the
    original program would have raised instead. */
module Wrappers {

  datatype Result<+T, +E> = Success(value: T) | Failure(error: E)
}
