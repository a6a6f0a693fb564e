/** The usual optional value, used for the diagnostics the operations report. */
module Wrappers {
  datatype Option<+T> = None | Some(value: T)
}
