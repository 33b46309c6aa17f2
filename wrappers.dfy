/** Optional values, used where the JavaScript source has `undefined` or `null`. */
module Wrappers {

  datatype Option<+T> = None | Some(value: T)

}
