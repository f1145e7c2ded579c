/** Optional values, used for a lookup that may find nothing and for a fetch that may fail. */
module Wrappers {

  datatype Option<+T> = None | Some(value: T)
}
