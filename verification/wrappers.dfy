/** Wrappers shared by the model: Python's `Optional[...]` and an
    exception-or-value result. */
module Wrappers {

  /** `None` or a value, as Python's `Optional[T]`. */
  datatype Option<+T> = None | Some(value: T)

  /** Either a value or the exception a Python call would raise. */
  datatype Result<+R, +E> = Success(value: R) | Failure(error: E)
}
