/** Optional values: a DOM reference that may be missing. */
module Wrappers {
  datatype Option<+T> = None | Some(value: T)
}
