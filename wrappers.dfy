/** Option and Result, used for the operations that can fail in the source
    (a file that cannot be read, a store reply that cannot be indexed, an HTTP call). */
module Wrappers {

  datatype Option<T> = None | Some(value: T)

  datatype Result<T, E> = Ok(value: T) | Err(error: E)
}
