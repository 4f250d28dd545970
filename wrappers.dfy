/** Failure-carrying result types shared by the modules of this model. */
module Wrappers {

  /** A value that may be absent: a null pointer, `std::string::npos`, an unset variable. */
  datatype Option<+T> = None | Some(value: T)

  /** The outcome of an operation that may throw in the source. */
  datatype Result<+T, +E> = Success(value: T) | Failure(error: E)
}
