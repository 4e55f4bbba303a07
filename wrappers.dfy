/** The optional value used where the PHP code returns or compares with null. */
module Wrappers {
  datatype Option<+T> = None | Some(value: T)
}
