/** The Option type used for the source's `T | null` results. */
module Wrappers {
  datatype Option<+T> = None | Some(value: T)
}
