/** Optional values: Python's `None` and the gap marker of an alignment. */
module Wrappers {

  datatype Option<+T> = None | Some(value: T)
}
