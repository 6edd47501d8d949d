/** Optional values and results: a missing numeric value (pandas NaN) and
    a computation that either yields a value or raises. */
module Wrappers {

  datatype Option<+T> = None | Some(value: T)

  datatype Result<+R, +E> = Ok(value: R) | Err(error: E)
}
