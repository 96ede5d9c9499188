/** The nullable values of the application (`string | null`, `{...} | null`). */
module Wrappers {

  datatype Option<+T> = None | Some(value: T)
}
