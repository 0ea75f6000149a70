/** The optional value used across the model, for a Kotlin nullable result or a JavaScript `null`-able lookup. */
module Wrappers {
  datatype Option<+T> = None | Some(value: T)
}
