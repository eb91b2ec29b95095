/** Optional values, used for "first match or nothing" searches. */
module Wrappers {

  datatype Option<+T> = None | Some(value: T)

}
