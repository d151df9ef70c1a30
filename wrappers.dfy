/** Optional values: an absent node reference (`null` in the editor's code) or a
    host operation that throws instead of returning. */
module Wrappers {
  datatype Option<+T> = None | Some(value: T)
}
