/** The optional value used for lookups and for the error half of Go's (value, err) pairs. */
module Wrappers {

  datatype Option<+T> = None | Some(value: T)
}
