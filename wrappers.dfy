/** Optional values: a JavaScript `null`/`undefined` or an SQL NULL is `None`. */
module Wrappers {
  datatype Option<+T> = None | Some(value: T)
}
