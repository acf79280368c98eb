/** Optional values, used for parsers and for files a transfer never opened. */
module Wrappers {
  datatype Option<+T> = None | Some(value: T)
}
