/** Python's `None`-or-value and the error returns of the HTTP handlers. */
module Wrappers {

  /** A value that may be absent: Python's `None` versus a present value. */
  datatype Option<+T> = None | Some(value: T)

  /** A handler's outcome: the JSON body it answers with, or the error it rejects with. */
  datatype Result<+R, +E> = Success(value: R) | Failure(error: E)
}
