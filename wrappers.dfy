/** The optional value used where the source returns a value or signals failure. */
module Wrappers {

  datatype Option<+T> = None | Some(value: T)
}
