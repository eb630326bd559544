/** The optional value used wherever the component relies on `null`,
    `undefined` or JavaScript's optional chaining. */
module Wrappers {

  datatype Option<+T> = None | Some(value: T)
}
