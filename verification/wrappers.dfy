/** The optional value a stream terminal operation such as `findFirst` or
    `min` returns: absent for an empty stream. */
module Wrappers {

  datatype Option<+T> = None | Some(value: T)
}
