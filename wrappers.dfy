/** Option and Result, the two failure-carrying shapes the rest of the model uses
    for JavaScript's `null` and for a promise that resolves or rejects. */
module Wrappers {

  datatype Option<+T> = None | Some(value: T)

  datatype Result<+R, +E> = Ok(value: R) | Err(error: E)
}
