/** Optional values: a field a record may leave undefined. */
module Wrappers {

  datatype Option<+T> = None | Some(value: T)
}
