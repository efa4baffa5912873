/** Failure-carrying result types shared by the maze model. */
module Wrappers {

  /** An optional value: `None` when a lookup or decoding finds nothing. */
  datatype Option<+T> = None | Some(value: T)

  /** The outcome of an operation that can fail with an error of type `E`. */
  datatype Result<+R, +E> = Success(value: R) | Failure(error: E)
}
