/** Optional values: a JavaScript `undefined` or a failed lookup is `None`. */
module Wrappers {
  datatype Option<+T> = None | Some(value: T)
}
