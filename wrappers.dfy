/** The usual optional-value datatype, standing in for JavaScript's `undefined` / "not found". */
module Wrappers {

  datatype Option<+T> = None | Some(value: T)
}
