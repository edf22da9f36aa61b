/** Optional values: JavaScript's `null`, `undefined` and `NaN` results become `None`. */
module Wrappers {

  datatype Option<+T> = None | Some(value: T)
}
