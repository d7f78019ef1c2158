/** Failure-carrying results: the model's replacement for the source's
    `unwrap`s and `panic!`s, each of which becomes an explicit error value. */
module Wrappers {

  datatype Option<+T> = None | Some(value: T)

  datatype Result<+T, +E> = Ok(value: T) | Err(error: E)
}
