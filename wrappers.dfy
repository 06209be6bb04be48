/** An optional value: a page-table walk that may find no entry, a release that may panic. */
module Wrappers {
  datatype Option<+T> = None | Some(value: T)
}
