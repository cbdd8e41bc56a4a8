/** The optional value used wherever the crawler may find nothing (a missing tag, a failed fetch). */
module Wrappers {

  datatype Option<+T> = None | Some(value: T)

}
