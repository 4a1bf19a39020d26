/** An optional value, standing for JavaScript's `undefined` / `null` / "not found". */
module Wrappers {

  datatype Option<+T> = None | Some(value: T)
}
