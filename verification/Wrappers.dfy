/** The optional value used in place of C's null results. */
module Wrappers {
  datatype Option<+T> = None | Some(value: T)
}
