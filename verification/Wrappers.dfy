/** What several modules share. */
module Wrappers {
  datatype Option<T> = None | Some(value: T)

  /** Stands for an explicit number, a size or an offset that is not known. */
  const UNKNOWN := -1

  /** No element occurs twice. */
  predicate Distinct<T(==)>(s: seq<T>) {
    forall i, j :: 0 <= i < j < |s| ==> s[i] != s[j]
  }
}
