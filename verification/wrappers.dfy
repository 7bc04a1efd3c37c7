/** Optional values: a header or query parameter that may be absent. */
module Wrappers {

  datatype Option<+T> = None | Some(value: T)
}
