/** Optional values, for elements a page may or may not contain. */
module Wrappers {

  datatype Option<+T> = None | Some(value: T)
}
