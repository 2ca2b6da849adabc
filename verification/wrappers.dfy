/** Optional values, used for lookups and steps that may produce nothing. */
module Wrappers {

  datatype Option<+T> = None | Some(value: T)
}
