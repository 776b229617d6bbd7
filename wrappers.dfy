/** Failure-carrying result types used in place of the source's nulls and exceptions. */
module Wrappers {

  /** `None` stands for a C# `null` argument or result. */
  datatype Option<+T> = None | Some(value: T)

  /** The value of a call that either returns or throws. */
  datatype Result<+T, +E> = Success(value: T) | Failure(error: E)

  /** The outcome of a `void` call that either returns or throws. */
  datatype Outcome<+E> = Pass | Fail(error: E)
}
