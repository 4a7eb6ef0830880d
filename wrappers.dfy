/** The optional-value datatype shared by the other modules (a C pointer
    that may be NULL, a field that may be absent). */
module Wrappers {

  datatype Option<+T> = None | Some(value: T)
}
