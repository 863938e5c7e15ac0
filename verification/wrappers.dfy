/** The "value or nothing" type used wherever the source returns `null`
    or `undefined` for an absent row, key or capture group. */
module Wrappers {

  datatype Option<+T> = None | Some(value: T)
}
