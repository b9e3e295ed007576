/** Optional values: a database column that may be NULL, a lookup that may miss. */
module Wrappers {

  datatype Option<+T> = None | Some(value: T)
}
