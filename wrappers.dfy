/** The optional value used wherever the original code returns `null` or
    leaves a field `undefined`. */
module Wrappers {
  datatype Option<+T> = None | Some(value: T)
}
