/** An optional value: what a query's `.first()` returns, and the session slot. */
module Wrappers {
  datatype Option<+T> = None | Some(value: T)
}
