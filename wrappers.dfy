/** Wrapper types shared by the modules of the model. */
module Wrappers {

  /** A value that may be absent: JavaScript's null or undefined. */
  datatype Option<+T> = None | Some(value: T)
}
