/** Failure-carrying values for the build script's error paths. */
module Wrappers {

  datatype Option<T> = None | Some(value: T)

  /** `Failure` carries the message of the exception the script raises. */
  datatype Result<T> = Success(value: T) | Failure(error: string)
}
