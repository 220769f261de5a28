// Optional values, used for null pointers and for failing parsers.
module Wrappers {
  datatype Option<+T> = None | Some(value: T)
}
