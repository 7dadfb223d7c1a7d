/** Optional values, standing for Swift's `T?` in the model. */
module Wrappers {

  datatype Option<+T> = None | Some(value: T)
}
