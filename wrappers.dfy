/** Option and Result, used for JavaScript's `null`/`undefined` and for the
    exception a build can throw. */
module Wrappers {

  datatype Option<+T> = None | Some(value: T)

  datatype Result<+R, +E> = Success(value: R) | Failure(error: E)
}
