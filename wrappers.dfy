/** Optional values: a JSON field or a lookup that may be absent (Python's None). */
module Wrappers {

  datatype Option<+T> = None | Some(value: T)
}
