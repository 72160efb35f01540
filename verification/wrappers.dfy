/** The optional value used where the scanner's Rust code has `Option` or a
    position that may not exist. */
module Wrappers {

  datatype Option<+T> = None | Some(value: T)
}
