/** Optional values: JavaScript's optional properties and `null`/`undefined`
    handles are both read as an absent value. */
module Wrappers {
  datatype Option<+T> = None | Some(value: T)
}
