/** Optional values: JavaScript's `null` on the result side of the model. */
module Wrappers {

  datatype Option<+T> = None | Some(value: T)
}
