/** Failure-carrying return types: Python's `None` result and raised exceptions. */
module Wrappers {

  /** A value that may be absent (Python's `None`). */
  datatype Option<+T> = None | Some(value: T)

  /** The exceptions the modelled code raises, by Python class name. */
  datatype Error =
    | ValueError(message: string)
    | TypeError(message: string)

  /** A value, or the exception raised instead of returning one. */
  datatype Result<+T> = Success(value: T) | Failure(error: Error)
}
