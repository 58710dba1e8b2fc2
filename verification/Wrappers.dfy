// A value that may be absent: a C pointer that may be NULL, a Go lookup that may fail.
module Wrappers {
  datatype Option<+T> = None | Some(value: T)
}
