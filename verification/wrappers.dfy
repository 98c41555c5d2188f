/** The optional value used where the source has Swift's `Optional`. */
module Wrappers {
  datatype Option<T> = None | Some(value: T)
}
