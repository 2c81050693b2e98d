/** Option, used wherever the source returns a nullable
    pointer, a `std::optional` or an iterator that may equal `end()`. */
module Wrappers {

  datatype Option<+T> = None | Some(value: T)
}
