/** An optional value, used where a reader may reject its input. */
module Wrappers {

  datatype Option<+T> = None | Some(value: T)
}
