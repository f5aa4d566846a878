/** The optional value the engine expresses with a NULL pointer. */
module Wrappers {

  datatype Option<+T> = None | Some(value: T)

}
