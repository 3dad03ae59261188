/** Optional and success-or-error values: the model's stand-in for the C++
    implementation's null pointers (a missing value) and thrown exceptions (a failed construction). */
module Wrappers {

  /** An optional value: `None` plays the part of a returned null pointer. */
  datatype Option<+T> = None | Some(value: T)

  /** A success value or an error value. */
  datatype Result<+T, +E> = Success(value: T) | Failure(error: E)
}
