/** The optional value used for JavaScript's "missing", `NaN` and "not found" results. */
module Wrappers {

  datatype Option<+T> = None | Some(value: T)

}
