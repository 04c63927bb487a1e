/** Small value wrappers shared by the other modules. */
module Basics {

  /** A value that may be absent: a null pointer, `void`, a missing type. */
  datatype Option<T> = None | Some(value: T)

  /** The result of an operation that may throw `bad_variant_access`. */
  datatype Outcome<T> = Ok(value: T) | Throws
}
