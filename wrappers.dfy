/** Failure-compatible result types shared by the other modules. */
module Wrappers {

  /** A value that may be absent: Java's nullable return of `Map.get`. */
  datatype Option<+T> = None | Some(value: T)

  /** Either a value or the exception that was thrown instead. */
  datatype Result<+R, +E> = Success(value: R) | Failure(error: E)
}
