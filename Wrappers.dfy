/** The optional value that the matrix API returns where Rust returns `Option`. */
module Wrappers {

  datatype Option<+T> = None | Some(value: T)

}
