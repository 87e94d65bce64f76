/** Optional values, used for JavaScript's absent properties and for a not-yet-set
    variable, and results that are either a value or an error. */
module Wrappers {

  datatype Option<+T> = None | Some(value: T)

  datatype Result<+T, +E> = Success(value: T) | Failure(error: E)
}
