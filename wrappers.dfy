/** Optional values, for JavaScript's `undefined` and for a computation that throws. */
module Wrappers {

  datatype Option<+T> = None | Some(value: T)
}
