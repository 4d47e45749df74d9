/** The optional value used across the model: `None` stands for JavaScript's
    `null`/`undefined` results (a regular expression that did not match, a
    property that is absent). */
module Wrappers {

  datatype Option<+T> = None | Some(value: T)
}
