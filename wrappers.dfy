/** The optional value used for "nothing rendered" and "no teardown returned". */
module Wrappers {
  datatype Option<+T> = None | Some(value: T)
}
