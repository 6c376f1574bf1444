/** Optional value, used for "this contour yields no entry". */
module Wrappers {

  datatype Option<+T> = None | Some(value: T)
}
