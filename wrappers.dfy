/** The optional value shared by the parser and the clock read-back. */
module Wrappers {
  datatype Option<T> = None | Some(value: T)
}
