/** The optional value used for JavaScript's `undefined`-able fields and for
    `String.prototype.match` / `indexOf` results that may be absent. */
module Wrappers {

  datatype Option<+T> = None | Some(value: T)
}
