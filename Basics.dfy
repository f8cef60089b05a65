/** Small shared vocabulary of the model. */
module Basics {
  datatype Option<T> = None | Some(value: T)
}
