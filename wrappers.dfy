/** The optional-value type used for the error paths of the C++ prototype. */
module Wrappers {

  datatype Option<+T> = None | Some(value: T)

}
