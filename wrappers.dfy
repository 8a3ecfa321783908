/** Failure-carrying values: `Option` for a parse that may fail, `Result` for
    an operation that stops with the exception Python would raise. */
module Wrappers {

  datatype Option<+T> = None | Some(value: T)

  datatype Result<+T, +E> = Ok(value: T) | Err(error: E)
}
