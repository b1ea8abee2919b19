/** Optional values: the NULL / found-or-not results of the C code. */
module Wrappers {
  datatype Option<+T> = None | Some(value: T)
}
