/** Small definitions shared by several models. */
module Common {

  datatype Option<T> = None | Some(value: T)

  /** No value occurs twice. */
  predicate Distinct<T(==)>(s: seq<T>) {
    forall i, j :: 0 <= i < j < |s| ==> s[i] != s[j]
  }
}
