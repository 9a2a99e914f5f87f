/** Small value wrappers shared by the model. */
module Wrappers {
  /** A value that may be absent: JavaScript's `undefined` or a regex that did not match. */
  datatype Option<+T> = None | Some(value: T)
}
