/** Kotlin's nullable types, as a value. */
module Wrappers {

  /** `None` stands for Kotlin's `null`, `Some(v)` for a present value `v`. */
  datatype Option<+T> = None | Some(value: T)
}
