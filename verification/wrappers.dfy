/** Kotlin's nullable references, as an explicit datatype. */
module Wrappers {

  /** `None` stands for Kotlin's `null`, `Some(v)` for a present value. */
  datatype Option<+T> = None | Some(value: T)
}
