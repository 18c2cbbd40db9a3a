/** Optional values, used for the handles' captured super indices (Swift's `Int?`). */
module Wrappers {

  datatype Option<+T> = None | Some(value: T)
}
