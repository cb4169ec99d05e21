/** Small helper datatypes shared by the other modules. */
module Wrappers {

  /** A value that may be absent: a failed read of standard input. */
  datatype Option<+T> = None | Some(value: T)
}
