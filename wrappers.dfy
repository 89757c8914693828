/** The optional value shared by the other modules: a string that may be
    null, a link that may not exist. */
module Wrappers {
  datatype Option<+T> = None | Some(value: T)
}
