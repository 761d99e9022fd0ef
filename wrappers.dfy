/** Optional values, used for nullable columns and for "this row produced no message". */
module Wrappers {

  datatype Option<+T> = None | Some(value: T)
}
