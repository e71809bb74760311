/** The optional value used where the PHP code uses null for "no value". */
module Wrappers {
  datatype Option<+T> = None | Some(value: T)
}
