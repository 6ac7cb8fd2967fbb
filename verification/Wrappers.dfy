/** A value that may be missing: the program's None. */
module Wrappers {
  datatype Option<+T> = None | Some(value: T)
}
