/** The optional-value datatype used for TypeScript's `T | null`. */
module Wrappers {

  /** `None` plays the role of `null`; `Some(v)` carries a present value. */
  datatype Option<+T> = None | Some(value: T)
}
