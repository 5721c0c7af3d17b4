/** The `Option` and `Result` datatypes used by the model. */
module Wrappers {

  /** An optional value: the model's stand-in for JavaScript's `null`/`undefined`. */
  datatype Option<+T> = None | Some(value: T)

  /** Either a value or an error: the model's stand-in for a thrown exception. */
  datatype Result<+R, +E> = Success(value: R) | Failure(error: E)
}
