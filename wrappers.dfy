/** Optional values and error-or-value results, used where the Java code returns
    null, Guava's Optional, or throws. */
module Wrappers {

  datatype Option<+T> = None | Some(value: T)

  datatype Result<+T, +E> = Ok(value: T) | Err(error: E)
}
