/** Notions used by several modules. */
module Basics {

  datatype Option<T> = None | Some(value: T)

  type Byte = b: nat | b < 256

  predicate Distinct(s: seq<nat>) {
    forall i, j | 0 <= i < j < |s| :: s[i] != s[j]
  }
}
