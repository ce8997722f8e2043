/** The "absent or present" value of a storage slot. */
module Wrappers {

  /** `None` is a key that was never written; `Some(v)` holds the value last written. */
  datatype Option<+T> = None | Some(value: T)
}
