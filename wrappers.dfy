/** The optional value used for a path that may hold no file and for input that may fail to parse. */
module Wrappers {

  datatype Option<+T> = None | Some(value: T)
}
