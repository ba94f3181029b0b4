/**
 * Shared helpers: optional values, where `None` stands for JavaScript's
 * `null`/`undefined`, and duplicate-free sequences.
 */
module Wrappers {

  datatype Option<+T> = None | Some(value: T)

  /** No value occurs twice. */
  predicate NoDuplicates<T(==)>(s: seq<T>) {
    forall i, j :: 0 <= i < j < |s| ==> s[i] != s[j]
  }
}
