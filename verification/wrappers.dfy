/** Optional values, used for the optional targets of the command line and for a
    status query that may fail. */
module Wrappers {
  datatype Option<+T> = None | Some(value: T)
}
