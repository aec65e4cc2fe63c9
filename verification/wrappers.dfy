/** Optional values: a JavaScript `null`/`undefined` or an absent property is `None`. */
module Wrappers {

  datatype Option<+T> = None | Some(value: T)
}
