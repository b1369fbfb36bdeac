/** Failure-carrying datatypes used by the validators and the parsers. */
module Wrappers {

  /** A value that may be absent. */
  datatype Option<+T> = None | Some(value: T)

  /** Either a successfully computed value or an error. */
  datatype Result<+R, +E> = Success(value: R) | Failure(error: E)
}
