/** The optional value used wherever the window code works with `None`
    or with a lookup that can fail. */
module Wrappers {

  datatype Option<+T> = None | Some(value: T)

}
