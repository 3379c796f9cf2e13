/** The Some/None wrapper used for optional state of the widget. */
module Wrappers {
  datatype Option<+T> = None | Some(value: T)
}
