/** Python's optional value, shared by the validator modules. */
module Wrappers {

  /** An optional value: Python's `None` or an actual value. */
  datatype Option<+T> = None | Some(value: T)
}
