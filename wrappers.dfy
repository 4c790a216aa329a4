/** The nullable values of the page state (`number | null`, `string | null`). */
module Wrappers {

  datatype Option<+T> = None | Some(value: T)
}
