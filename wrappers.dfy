/** Failure-carrying results and the exception kinds the table engine raises. */
module Wrappers {

  /** A value that may be absent. */
  datatype Option<+T> = None | Some(value: T)

  /** The value of a computation, or the error it raised. */
  datatype Result<+T, +E> = Success(value: T) | Failure(error: E)

  /** The outcome of a computation that yields no value. */
  datatype Outcome<+E> = Pass | Fail(error: E)

  /** The standard exceptions thrown by the engine's core:
      `std::out_of_range` (unknown column, mask of the wrong size) and
      `std::runtime_error` (a comparison against a key of the wrong type). */
  datatype Error = OutOfRange | RuntimeError
}
