/** The failure-compatible Option type: `None` stands for a Python call that raised. */
module Wrappers {
  datatype Option<+T> = None | Some(value: T)
}
