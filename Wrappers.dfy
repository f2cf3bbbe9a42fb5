/** The optional value used where the JavaScript code has `undefined`. */
module Wrappers {

  datatype Option<+T> = None | Some(value: T)
}
