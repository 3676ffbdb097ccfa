/** Option and Result, used for Python's `None` arguments and for the
    `ValueError`s the builders raise. */
module Wrappers {

  datatype Option<+T> = None | Some(value: T)

  datatype Result<+T, +E> = Ok(value: T) | Err(error: E)
}
