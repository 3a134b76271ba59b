/** Option and Result, used for the key lookups of the reply envelope and for
    the errors the node raises. */
module Wrappers {

  datatype Option<+T> = None | Some(value: T)

  datatype Result<+T, +E> = Ok(value: T) | Err(error: E)
}
