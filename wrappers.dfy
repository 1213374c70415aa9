/** Optional values, used for "no winner yet" and "no such cell". */
module Wrappers {
  datatype Option<+T> = None | Some(value: T)
}
