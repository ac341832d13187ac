/** Small notions that several components share. */
module Basics {

  /** A value that may be missing, as a reference that may be null. */
  datatype Option<+T> = None | Some(value: T)

  ghost predicate NoDuplicates<T>(s: seq<T>) {
    forall i, j :: 0 <= i < j < |s| ==> s[i] != s[j]
  }
}
