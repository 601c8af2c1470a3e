/** Failure-carrying datatypes shared by the signature engine and the signed-file reader. */
module Wrappers {

  /** A value that may be missing, used for a parse that can fail. */
  datatype Option<+T> = None | Some(value: T)

  /** Either a computed value or the reason it could not be computed; stands in for
      the exceptions the engine throws. */
  datatype Result<+T, +E> = Success(value: T) | Failure(error: E)
}
