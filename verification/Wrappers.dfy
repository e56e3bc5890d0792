/** Optional values, standing in for Swift optionals and weak references. */
module Wrappers {

  datatype Option<+T> = None | Some(value: T)
}
