/** Optional values: a JSON field that may be absent, a query row that may not exist. */
module Wrappers {

  datatype Option<+T> = None | Some(value: T)
}
