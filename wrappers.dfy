/** Optional values, used where the source yields `undefined` or drops an input. */
module Wrappers {

  datatype Option<+T> = None | Some(value: T)
}
