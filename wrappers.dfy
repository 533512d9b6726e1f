/** A value that may be absent: a focused row, a parsed number. */
module Wrappers {
  datatype Option<T> = None | Some(value: T)
}
