/** Option and Result, the two failure-carrying datatypes the model uses. */
module Wrappers {

  /** A value that may be missing; for a translation file, None stands for a document that does not parse. */
  datatype Option<+T> = None | Some(value: T)

  /** The outcome of a stage that can fail fatally. */
  datatype Result<+R, +E> = Success(value: R) | Failure(error: E)
}
