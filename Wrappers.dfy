/** Optional values: an HTML attribute that may be absent (`getAttribute` returning null). */
module Wrappers {
  datatype Option<+T> = None | Some(value: T)
}
