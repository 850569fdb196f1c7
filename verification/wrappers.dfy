/** Option and Result values standing in for Python's `None` and for raised exceptions. */
module Wrappers {

  datatype Option<+T> = None | Some(value: T)

  /** `Failure` is a Python exception the source lets escape; the simulation stops there. */
  datatype Result<+T, +E> = Success(value: T) | Failure(error: E)
}
