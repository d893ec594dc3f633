/** Optional values, used where the handler's helpers return None on a remote error. */
module Wrappers {

  datatype Option<+T> = None | Some(value: T)
}
