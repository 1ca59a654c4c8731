/** Optional values: a field of a result record that may be absent. */
module Wrappers {

  datatype Option<+T> = None | Some(value: T)
}
