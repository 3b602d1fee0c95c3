/** Optional values, standing in for Swift optionals and `nil`. */
module Wrappers {
  datatype Option<+T> = None | Some(value: T)
}
