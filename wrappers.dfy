/** The optional value used for the C code's NULL returns. */
module Wrappers {
  datatype Option<+T> = None | Some(value: T)
}
