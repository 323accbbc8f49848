/** Optional values, for the source's NULL results and its -1 "absent" codes. */
module Wrappers {
  datatype Option<+T> = None | Some(value: T)
}
