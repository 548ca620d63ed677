/** Small result types shared by the model. */
module Wrappers {

  /** The outcome of a lookup: an entity, or nothing. Stands for a pointer that may be null. */
  datatype Option<+T> = None | Some(value: T)

  /** What a C++ computation yields: a value, or undefined behaviour (a null pointer dereferenced). */
  datatype Outcome<+T> = Defined(value: T) | Undefined
}
