/** The optional value the editor expresses with `null` (a missing layer, an unknown filter). */
module Wrappers {
  datatype Option<T> = None | Some(value: T)
}
