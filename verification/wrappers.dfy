/** An optional argument and a success-or-error result. */
module Wrappers {

  /** An argument that may be absent (Python's `None` default). */
  datatype Option<+T> = None | Some(value: T)

  /** Either a computed value or the error that aborts the computation. */
  datatype Result<+R, +E> = Success(value: R) | Failure(error: E)
}
