/** Optional values, for lookups that Python answers with None. */
module Wrappers {
  datatype Option<+T> = None | Some(value: T)
}
