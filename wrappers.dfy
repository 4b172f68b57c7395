/** Optional values: a node or a regex match that may be absent. */
module Wrappers {

  datatype Option<+T> = None | Some(value: T)
}
