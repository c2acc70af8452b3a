/** The nullable values of the mark records (`T | null`), as an Option. */
module Wrappers {

  datatype Option<+T> = None | Some(value: T)
}
