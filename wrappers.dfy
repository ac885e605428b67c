/** Optional values, used for "no cell" and "no armed label". */
module Wrappers {
  datatype Option<+T> = None | Some(value: T)
}
