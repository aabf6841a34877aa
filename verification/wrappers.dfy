/** JavaScript's "a value or nothing" (`null` / `undefined` for a missing proxy). */
module Wrappers {

  datatype Option<+T> = None | Some(value: T)
}
