/** Small vocabulary shared by the models of the separate components. */
module Common {

  /** A C `u_char`. */
  type Byte = b: int | 0 <= b < 256

  /** A pointer result that may be NULL. */
  datatype Option<+T> = None | Some(value: T)

  ghost predicate NoDup<T>(s: seq<T>)
  {
    forall i, j :: 0 <= i < j < |s| ==> s[i] != s[j]
  }
}
