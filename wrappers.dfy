/** Small result types shared by the whole model. */
module Wrappers {

  datatype Option<+T> = None | Some(value: T)

  /** How a JavaScript promise settles: fulfilled with a value, or rejected with a reason. */
  datatype Promised<+T> = Resolved(value: T) | Rejected(reason: string)
}
