/** The optional value used where a JavaScript function returns either a value or `false`. */
module Wrappers {

  datatype Option<+T> = None | Some(value: T)
}
