/** Optional values: JavaScript's `undefined` result of a lookup or a split index. */
module Wrappers {
  datatype Option<+T> = None | Some(value: T)
}
