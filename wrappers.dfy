/** Option: an element slot that may or may not hold a constructed value. */
module Wrappers {
  datatype Option<+T> = None | Some(value: T)
}
