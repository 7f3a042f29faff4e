/** Optional values: a Redis GET that finds nothing, an absent query parameter. */
module Wrappers {

  datatype Option<+T> = None | Some(value: T)
}
