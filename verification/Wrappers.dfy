// The value a JavaScript function returns when it may also return `undefined` or `null`.
module Wrappers {
  datatype Option<+T> = None | Some(value: T)
}
