/** Optional values and typed outcomes, used in place of JavaScript's `undefined` and of the
    HTTP error responses the handlers send. */
module Wrappers {

  datatype Option<+T> = None | Some(value: T)

  datatype Result<+T, +E> = Ok(value: T) | Err(error: E)
}
