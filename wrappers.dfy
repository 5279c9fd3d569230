/** Optional values, used for the timer's deadline and last-tick timestamps and for parse results. */
module Wrappers {
  datatype Option<+T> = None | Some(value: T)
}
