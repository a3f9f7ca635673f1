/** The optional value used throughout the model: `None` stands for JavaScript's `null`
    or `undefined`, as each use says. */
module Wrappers {

  datatype Option<+T> = None | Some(value: T)
}
