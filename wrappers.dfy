/** Wrappers for the source's nullable values and exceptions. */
module Wrappers {

  /** A C# nullable value: `None` stands for `null`. */
  datatype Option<+T> = None | Some(value: T)

  /** A value or the exception that replaced it. */
  datatype Result<+T, +E> = Success(value: T) | Failure(error: E)

  /** Completion of a `void` operation: normal return or the exception it threw. */
  datatype Outcome<+E> = Pass | Fail(error: E)
}
