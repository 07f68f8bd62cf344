/** Option: a value that may be missing, used for failed parses and for panics. */
module Wrappers {

  datatype Option<+T> = None | Some(value: T)
}
