/** The optional value used wherever the page deals with a value that may be
    absent (`null`, `undefined`, a missing map entry). */
module Wrappers {

  datatype Option<+T> = None | Some(value: T)
}
