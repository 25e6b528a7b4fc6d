/** Optional values and results, used wherever the editor returns a pointer that may be null
    or throws on misuse. */
module Wrappers {
  datatype Option<T> = None | Some(value: T)

  datatype Result<T, E> = Ok(value: T) | Err(error: E)
}
