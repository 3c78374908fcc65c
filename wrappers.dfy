/** The absent-or-present value used wherever the handler tests a JavaScript
    value for `null` or `undefined`. */
module Wrappers {

  datatype Option<+T> = None | Some(value: T)
}
