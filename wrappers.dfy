/** A value that may be missing: a storage slot that holds nothing, a parse that throws. */
module Wrappers {
  datatype Option<+T> = None | Some(value: T)
}
