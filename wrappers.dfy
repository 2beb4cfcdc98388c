/** An optional value, used where a partial inverse (a parser) may find nothing. */
module Wrappers {
  datatype Option<+T> = None | Some(value: T)
}
