/** Optional values, as returned by the fallible operations of the model. */
module Wrappers {

  datatype Option<+T> = None | Some(value: T)

}
