/** The optional value used wherever the PHP code returns null. */
module Wrappers {
  datatype Option<+T> = None | Some(value: T)
}
