/** The optional value used for "the store gave nothing usable" and "the field is absent". */
module Wrappers {

  datatype Option<+T> = None | Some(value: T)
}
