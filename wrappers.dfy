/** Optional values, used wherever the program may or may not hold a value. */
module Wrappers {
  datatype Option<+T> = None | Some(value: T)
}
