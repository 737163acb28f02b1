/** Optional values: a bus call or a dictionary lookup that may fail. */
module Wrappers {

  datatype Option<+T> = None | Some(value: T)
}
