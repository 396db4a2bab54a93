/** The optional value used wherever the scripts hold `None` or a value. */
module Wrappers {

  datatype Option<+T> = None | Some(value: T)

}
