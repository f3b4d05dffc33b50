/** The optional value used wherever the source returns or stores `null`/`undefined`. */
module Wrappers {
  datatype Option<+T> = None | Some(value: T)
}
