/** Failure-carrying values: a C++ `NULL` pointer or an untouched out-parameter becomes `None`,
    an error return becomes `Failure`. */
module Wrappers {

  datatype Option<+T> = None | Some(value: T)

  datatype Result<+T, +E> = Success(value: T) | Failure(error: E)
}
