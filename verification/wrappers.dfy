/** The optional value used for calls that either produce something or fail. */
module Wrappers {

  datatype Option<+T> = None | Some(value: T)
}
