/** The optional value used for the reader's active trial id (Python's `None` or a string). */
module Wrappers {
  datatype Option<+T> = None | Some(value: T)
}
