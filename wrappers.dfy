/** Option, used where the source yields `undefined` or a NaN value. */
module Wrappers {

  datatype Option<+T> = None | Some(value: T)
}
