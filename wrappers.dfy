/** Optional values, used where the source returns None or leaves a field unset. */
module Wrappers {
  datatype Option<+T> = None | Some(value: T)
}
