/** A value that may be absent: Python's `None` for a variable that has no value. */
module Wrappers {
  datatype Option<+T> = None | Some(value: T)
}
