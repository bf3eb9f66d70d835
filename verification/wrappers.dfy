/** The optional value used wherever the component reads a reference that may be unset. */
module Wrappers {

  /** A JavaScript value that is either present or `null`/`undefined`. */
  datatype Option<+T> = None | Some(value: T)
}
