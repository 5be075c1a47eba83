/** Optional values, standing in for the NULL pointers of the lease code. */
module Wrappers {
  datatype Option<+T> = None | Some(value: T)
}
