/** Optional values, used wherever the PHP source tests `isset` on an array slot. */
module Wrappers {

  datatype Option<+T> = None | Some(value: T)
}
