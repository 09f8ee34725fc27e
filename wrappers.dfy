/** Option and Result, the two failure-carrying wrappers the model uses
    for Go's `(value, error)` return pairs and for runtime panics. */
module Wrappers {

  datatype Option<+T> = None | Some(value: T)

  datatype Result<+T, +E> = Ok(value: T) | Err(error: E)
}
