/** The optional-value type used for partial inverses. */
module Wrappers {

  datatype Option<+T> = None | Some(value: T)
}
