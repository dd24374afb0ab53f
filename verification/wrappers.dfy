/** Present/absent and success/failure values, used instead of Go's nil
    handles, `ok` flags and `error` returns. */
module Wrappers {

  datatype Option<+T> = None | Some(value: T)

  datatype Result<+R, +E> = Success(value: R) | Failure(error: E)
}
