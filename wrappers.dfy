/** The optional value used where the rule's host returns `undefined` or `null`. */
module Wrappers {

  datatype Option<+T> = None | Some(value: T)
}
