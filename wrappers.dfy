/** Optional values and failure-carrying results, used where the Java code
    returns an `Optional` or throws an exception. */
module Wrappers {

  /** `Optional<T>`: a value that may be absent. Absence is a normal outcome. */
  datatype Option<+T> = None | Some(value: T)

  /** The outcome of an operation that either returns a value or raises an error. */
  datatype Result<+T, +E> = Success(value: T) | Failure(error: E)
}
