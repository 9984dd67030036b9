/** Optional values: SQL NULL, a missing request field, a failed parse. */
module Wrappers {
  datatype Option<+T> = None | Some(value: T)
}
