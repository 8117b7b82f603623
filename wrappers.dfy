/** Failure-compatible wrappers shared by the modules of this model. */
module Wrappers {

  /** An optional value: Python's `None` or a present value. */
  datatype Option<+T> = None | Some(value: T)

  /** The outcome of an operation that may raise in the original program. */
  datatype Result<+T> = Success(value: T) | Failure(error: string)
}
