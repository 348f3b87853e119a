/** Optional values, for the source's `dict.get` results and cancelled dialogs. */
module Wrappers {
  datatype Option<+T> = None | Some(value: T)
}
