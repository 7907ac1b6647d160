/** Optional values: a nullable column, an absent request field, a missing header. */
module Wrappers {

  datatype Option<+T> = None | Some(value: T)
}
