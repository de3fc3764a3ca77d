/** Optional values, used for Python's `None` results and failed matches. */
module Wrappers {
  datatype Option<+T> = None | Some(value: T)
}
