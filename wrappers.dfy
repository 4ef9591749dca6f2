/** Failure-carrying datatypes shared by the whole model. */
module Wrappers {

  /** Python's `Optional[T]`: `None` or a value. */
  datatype Option<+T> = None | Some(value: T)

  /** The outcome of a call that either returns a value or raises an exception
      carrying the text `str(e)` would give. */
  datatype Attempt<+T> = Done(value: T) | Raised(message: string)

  /** Python truthiness of an optional string: present and not empty. */
  predicate HasText(t: Option<string>) { t.Some? && t.value != [] }
}
