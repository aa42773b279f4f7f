/** The absent-or-present values of the recipe application: a JavaScript
    value that may be `undefined` or `null` is modelled as `None`. */
module Wrappers {

  datatype Option<+T> = None | Some(value: T)
}
