/** Optional values, shared by every model module. */
module Wrappers {
  datatype Option<+T> = None | Some(value: T)
}
