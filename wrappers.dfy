/** The optional value returned when a serial line yields no publication. */
module Wrappers {

  datatype Option<+T> = None | Some(value: T)
}
