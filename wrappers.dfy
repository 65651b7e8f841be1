/** The optional value a query hook hands to a view: `None` while `data` is still undefined. */
module Wrappers {
  datatype Option<+T> = None | Some(value: T)
}
