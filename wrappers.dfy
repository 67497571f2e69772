/** The optional-value type used for JavaScript's `undefined` / `NaN` outcomes. */
module Wrappers {

  datatype Option<+T> = None | Some(value: T)
}
