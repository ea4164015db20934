/** Option and Result, the two failure-carrying types the model uses for
    JavaScript's `undefined` and for the one exception the core can throw. */
module Wrappers {

  datatype Option<+T> = None | Some(value: T)

  datatype Result<+R, +E> = Ok(value: R) | Err(error: E)
}
