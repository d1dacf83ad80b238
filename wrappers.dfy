/** The absent-or-present result that the containers return where the C code
    returns a data pointer or NULL. */
module Wrappers {

  datatype Option<+T> = None | Some(value: T)
}
