/** Optional values, for the places where the scripts return `null`/`undefined` or nothing. */
module Wrappers {

  datatype Option<+T> = None | Some(value: T)
}
