/** The optional value shared by the other modules: JavaScript's `null` and `undefined`,
    and a file the script cannot read, become `None`. */
module Wrappers {

  datatype Option<+T> = None | Some(value: T)
}
