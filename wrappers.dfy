/** Optional values: a query parameter that may be absent, a date that may not parse,
    a weekday that may have no business hours. */
module Wrappers {
  datatype Option<+T> = None | Some(value: T)
}
