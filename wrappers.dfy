/** A value that may be absent, for Python's `Optional`. */
module Wrappers {
  datatype Option<T> = None | Some(value: T)
}
