/** An optional value: Python's None, a missing key, or a value. */
module Wrappers {
  datatype Option<T> = None | Some(value: T)
}
