/** Optional values shared by the other modules. */
module Wrappers {

  /** A value that may be absent: stands for a Go pointer or interface that may be nil. */
  datatype Option<+T> = None | Some(value: T)
}
