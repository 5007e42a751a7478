/** The optional value used where the dashboard uses `null` or `undefined`. */
module Wrappers {

  datatype Option<+T> = None | Some(value: T)

}
