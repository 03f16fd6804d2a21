/** Null-able values and failure-carrying results, used throughout the model
    in place of Python's `None` and raised exceptions. */
module Wrappers {

  /** A nullable column or argument: `None` is Python's `None`. */
  datatype Option<+T> = None | Some(value: T)

  /** The outcome of an operation that either yields a value or raises. */
  datatype Result<+T, +E> = Success(value: T) | Failure(error: E)
}
