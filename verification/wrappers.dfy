/** The optional-value type used wherever the modelled code answers `null` or `undefined`. */
module Wrappers {

  datatype Option<+T> = None | Some(value: T)
}
