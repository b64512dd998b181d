/** The optional value used for absent start dates, unparseable strings and empty selections. */
module Wrappers {
  datatype Option<+T> = None | Some(value: T)
}
