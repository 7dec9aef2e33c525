/** Optional values, used for decoding that may fail and for a file that may not open. */
module Wrappers {

  datatype Option<+T> = None | Some(value: T)
}
