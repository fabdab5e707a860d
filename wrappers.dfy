/** Optional values: Java's `null` return and its absence of a value. */
module Wrappers {

  datatype Option<+T> = None | Some(value: T)
}
