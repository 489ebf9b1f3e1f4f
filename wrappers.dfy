/** The optional result of a keyed lookup: Go's `(value, ok)` pair. */
module Wrappers {

  datatype Option<+T> = None | Some(value: T)
}
