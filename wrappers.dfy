/** The optional value returned by decoding and parsing. */
module Wrappers {
  datatype Option<T> = None | Some(value: T)
}
