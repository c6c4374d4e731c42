/** Optional values, standing in for the `null` returns of the Java code. */
module Wrappers {

  datatype Option<+T> = None | Some(value: T)
}
