/** The optional value used wherever the program may produce nothing:
    an empty collection, an input that ran out, a key that is absent. */
module Wrappers {

  datatype Option<+T> = None | Some(value: T)

}
