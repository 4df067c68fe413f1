/** Failure-carrying results used wherever the Java code throws. */
module Wrappers {

  /** `null` or a value. */
  datatype Option<+T> = None | Some(value: T)

  /** A normal return with a value, or a thrown exception. */
  datatype Result<+T, +E> = Ok(value: T) | Err(error: E)

  /** A normal return from a `void` method, or a thrown exception. */
  datatype Outcome<+E> = Pass | Fail(error: E)
}
