/** Optional values and results with an error branch, used for the absent
    file and for the errors the updater raises. */
module Wrappers {

  datatype Option<+T> = None | Some(value: T)

  datatype Result<+T, +E> = Ok(value: T) | Err(error: E)
}
