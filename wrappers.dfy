/** The optional result used where the source panics or returns nil. */
module Wrappers {
  datatype Option<T> = None | Some(value: T)
}
