/** The optional value used wherever the Ruby code returns or receives `nil`. */
module Wrappers {

  datatype Option<+T> = None | Some(value: T)

}
