/** The optional value used throughout the model: `None` stands for Java's `null`
    or for an operation that has no result. */
module Wrappers {

  datatype Option<+T> = None | Some(value: T)
}
