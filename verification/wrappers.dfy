/** The optional value used where the JavaScript code returns `false`,
    `null` or `undefined` instead of a value. */
module Wrappers {

  datatype Option<+T> = None | Some(value: T)
}
