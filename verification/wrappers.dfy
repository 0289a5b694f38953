/** Optional values, used for Python's `None`-or-value arguments and results. */
module Wrappers {

  datatype Option<+T> = None | Some(value: T)

}
