/** The optional value used wherever the source has a nil pointer or an
    "absent" result. */
module Wrappers {
  datatype Option<+T> = None | Some(value: T)
}
