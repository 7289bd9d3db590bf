/** Optional values: used where the tracker answers None or skips an entry. */
module Wrappers {

  datatype Option<+T> = None | Some(value: T)
}
