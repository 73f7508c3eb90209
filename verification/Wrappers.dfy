/** Values that may be absent, and definitions that may be folded. */
module Wrappers {
  datatype Option<+T> = None | Some(value: T)

  /** Mentioned where a definition that is kept folded is to be unfolded. */
  ghost predicate Unfolded(n: nat) { true }
}
