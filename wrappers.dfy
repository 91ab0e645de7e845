/** The optional value the app writes as `null` / `undefined`. */
module Wrappers {

  datatype Option<+T> = None | Some(value: T)
}
