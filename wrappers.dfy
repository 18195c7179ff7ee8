/** Option and Result, the two failure-carrying values the model needs. */
module Wrappers {

  /** A value that may be missing: a null reference, such as a response body that deserialises to null. */
  datatype Option<+T> = None | Some(value: T)

  /** The outcome of an endpoint: a payload, or a problem message. */
  datatype Result<+R, +E> = Success(value: R) | Failure(error: E)
}
