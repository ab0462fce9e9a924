/** The optional value shared by the input manager and the sequence time mapper. */
module Wrappers {

  /** A value that may be absent: a C NULL, or an event that did not happen. */
  datatype Option<T> = None | Some(value: T)
}
