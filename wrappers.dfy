/** Optional values (the source's nullable references and `int?`) and
    success-or-error results (the source's thrown exceptions). */
module Wrappers {

  datatype Option<+T> = None | Some(value: T)

  datatype Result<+T, +E> = Ok(value: T) | Err(error: E)
}
