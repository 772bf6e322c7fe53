/** Option and Result, the two failure-carrying datatypes used throughout the model. */
module Wrappers {

  datatype Option<+T> = None | Some(value: T)

  /** The `(success, message)` tuple the converters return, with the message reduced
      to the value produced on success or the kind of failure. */
  datatype Result<+T, +E> = Success(value: T) | Failure(error: E)
}
