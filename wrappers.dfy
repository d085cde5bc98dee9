/** The optional value the source writes as `T | null` (or an `undefined` array slot). */
module Wrappers {
  datatype Option<+T> = None | Some(value: T)
}
