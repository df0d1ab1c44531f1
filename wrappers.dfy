/** The optional value used wherever the source signals "no value" (npos, a throwing conversion). */
module Wrappers {
  datatype Option<+T> = None | Some(value: T)
}
