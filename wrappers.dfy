/** Failure-compatible wrappers shared by the modules of this model. */
module Wrappers {

  /** An optional value: `None` stands for Python's `None`, a missing file or a raised exception. */
  datatype Option<+T> = None | Some(value: T)

  /** The outcome of a computation that can abort with an error. */
  datatype Result<+R, +E> = Success(value: R) | Failure(error: E)
}
