/** An optional value: `None` stands for JavaScript's `undefined` or `null` where the
    utilities test a value for presence. */
module Wrappers {

  datatype Option<+T> = None | Some(value: T)
}
