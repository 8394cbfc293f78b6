/** The optional value the C code expresses with a possibly-NULL pointer. */
module Wrappers {

  datatype Option<+T> = None | Some(value: T)
}
