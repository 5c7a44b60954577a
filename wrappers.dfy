/** The optional value used for a parsed request field. */
module Wrappers {
  datatype Option<T> = None | Some(value: T)
}
