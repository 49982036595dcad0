/** Small helper datatypes shared by the other modules. */
module Wrappers {

  /** A value that may be absent: an empty clipboard, an undecodable byte string. */
  datatype Option<+T> = None | Some(value: T)
}
