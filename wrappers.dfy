/** The optional value used where the PHP code yields `false` or `null`. */
module Wrappers {

  datatype Option<+T> = None | Some(value: T)
}
