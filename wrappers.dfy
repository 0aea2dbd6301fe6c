/** Optional values: an attribute of a capture entry that may be absent. */
module Wrappers {

  datatype Option<+T> = None | Some(value: T)
}
