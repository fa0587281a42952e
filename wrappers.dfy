/** The optional value that the converter returns in place of JavaScript's `null`. */
module Wrappers {

  datatype Option<+T> = None | Some(value: T)
}
