/** The optional value returned where the application may or may not dispatch an action. */
module Wrappers {
  datatype Option<+T> = None | Some(value: T)
}
