/** The conventional Some/None datatype, used for the optional width and height
    arguments and for the early "nothing to draw" return of block mode. */
module Wrappers {

  datatype Option<+T> = None | Some(value: T)
}
