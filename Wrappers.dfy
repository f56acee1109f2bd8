/** Failure-compatible wrappers: Option stands for a nullable Java reference,
    Result for a call that either returns a value or throws. */
module Wrappers {

  datatype Option<T> = None | Some(value: T)

  datatype Result<T, E> = Success(value: T) | Failure(error: E)
}
