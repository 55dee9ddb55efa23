/** Declarations that several components share. */
module Common {

  datatype Option<T> = None | Some(value: T)

  /** Nothing occurs twice. */
  ghost predicate Distinct<T>(q: seq<T>) { forall i, j :: 0 <= i < j < |q| ==> q[i] != q[j] }
}
