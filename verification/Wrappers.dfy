/** The optional value that stands for C's error returns and null pointers. */
module Wrappers {
  datatype Option<+T> = None | Some(value: T)
}
