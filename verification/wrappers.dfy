/** The optional value used wherever `find`, `login`, `getCurrentUser` or
    `getOtherUser` return `null`/`undefined` for "not found". */
module Wrappers {

  datatype Option<+T> = None | Some(value: T)
}
