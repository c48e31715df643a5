/** The optional value used throughout the model for JavaScript's `undefined`. */
module Wrappers {

  /** `None` stands for `undefined`; `Some(v)` for a defined value `v`. */
  datatype Option<+T> = None | Some(value: T)
}
