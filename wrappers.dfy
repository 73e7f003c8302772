/** The optional value used wherever JavaScript yields NaN or undefined. */
module Wrappers {
  datatype Option<+T> = None | Some(value: T)
}
