/** The Option type that the shell's Rust code uses for values that may be absent. */
module Wrappers {

  datatype Option<+T> = None | Some(value: T)
}
