/** Small failure-carrying datatypes shared by the other modules. */
module Wrappers {

  /** An optional value: the model's stand-in for Python's `None`. */
  datatype Option<+T> = None | Some(value: T)

  /** A value or the error that a Python constructor would have raised. */
  datatype Result<+R, +E> = Success(value: R) | Failure(error: E)
}
