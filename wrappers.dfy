/** The nullable values of the page: a JavaScript value that may be `null`. */
module Wrappers {

  datatype Option<+T> = None | Some(value: T)
}
