/** The optional value the adapter passes around where the source uses Rust's `Option`. */
module Wrappers {

  datatype Option<+T> = None | Some(value: T)

}
