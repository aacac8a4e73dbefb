/** Optional values and success-or-error results, used for absent fields,
    a payload that fails to parse and a remote call that raises. */
module Wrappers {

  datatype Option<+T> = None | Some(value: T)

  datatype Result<+R, +E> = Success(value: R) | Failure(error: E)
}
