/** Optional values, used wherever the source tests a value for `undefined`. */
module Wrappers {

  datatype Option<+T> = None | Some(value: T)

}
