/** Optional values, used for Python's "may be unbound / may be missing". */
module Wrappers {

  datatype Option<+T> = None | Some(value: T)

  /** Success or failure carrying an error describing why the run stopped. */
  datatype Result<+T, +E> = Ok(value: T) | Err(error: E)
}
