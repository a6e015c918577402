/** The optional value used for absent record fields, `undefined` arguments and NaN results. */
module Wrappers {

  datatype Option<+T> = None | Some(value: T)
}
