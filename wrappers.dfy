/** Optional values, for the source's `Option` and its null pointers. */
module Wrappers {
  datatype Option<T> = None | Some(value: T)
}
