/** Optional values and success/failure results, the Dafny counterparts of
    `java.util.Optional` and of a call that either returns or throws. */
module Wrappers {

  /** A value that may be absent (`Optional.empty()` or a Java `null`). */
  datatype Option<+T> = None | Some(value: T)

  /** The outcome of a call that returns a value or throws an error. */
  datatype Result<+T, +E> = Success(value: T) | Failure(error: E)
}
