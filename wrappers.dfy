/** The optional value used for outcomes that can fail (a Go panic or a parse error). */
module Wrappers {
  datatype Option<+T> = None | Some(value: T)
}
