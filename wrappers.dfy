/**
 * A value that may be missing: the result of a search that can fail, or a
 * JavaScript object that optional chaining (`?.`) reads as missing whether
 * it is `null` or `undefined`.
 */
module Wrappers {

  datatype Option<+T> = None | Some(value: T)
}
