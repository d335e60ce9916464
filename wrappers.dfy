/** JavaScript's `null`/`undefined` for a single field, as an option. */
module Wrappers {

  datatype Option<+T> = None | Some(value: T)
}
