/** Optional values and results with an error, used wherever the server
    returns a Go `error`, panics, or leaves a string empty. */
module Wrappers {

  datatype Option<+T> = None | Some(value: T)

  datatype Result<+T, +E> = Ok(value: T) | Err(error: E)
}
