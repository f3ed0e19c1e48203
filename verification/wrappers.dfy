/** Success-or-error and present-or-absent values, standing for the Python
    exceptions and `dict.get` misses of the scripts. */
module Wrappers {
  datatype Option<T> = None | Some(value: T)

  datatype Result<T, E> = Success(value: T) | Failure(error: E)
}
