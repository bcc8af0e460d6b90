/** Optional values, used wherever the browser code works with `None`. */
module Wrappers {

  datatype Option<+T> = None | Some(value: T)
}
