/** Option and Result types shared by the model. */
module Wrappers {

  /** A value that may be missing: `None` stands for JavaScript's `undefined` or `NaN`. */
  datatype Option<+T> = None | Some(value: T)

  /** The outcome of a request: the computed value, or the error that was thrown. */
  datatype Result<+R, +E> = Success(value: R) | Failure(error: E)
}
