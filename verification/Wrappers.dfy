/** The optional value used wherever the source has a pointer that may be NULL. */
module Wrappers {

  datatype Option<+T> = None | Some(value: T)
}
