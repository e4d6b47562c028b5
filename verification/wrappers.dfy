/** Failure-carrying datatypes shared by the rest of the model: Option for Python's
    `None`-or-value, Result for a value or the exception an operation raises. */
module Wrappers {

  datatype Option<+T> = None | Some(value: T)

  datatype Result<+R, +E> = Success(value: R) | Failure(error: E)
}
