/**
 What several components share.
 */
module Common {
  datatype Option<T> = None | Some(value: T)

  /** Machine words have 32 bits. */
  const WORD: int := 0x1_0000_0000

  ghost predicate NoDup<N>(s: seq<N>) {
    forall i, j :: 0 <= i < j < |s| ==> s[i] != s[j]
  }

  ghost predicate StrictWeakOrder<T(!new)>(less: (T, T) -> bool) {
    && (forall x :: !less(x, x))
    && (forall x, y, z :: less(x, y) && less(y, z) ==> less(x, z))
    && (forall x, y, z :: less(x, z) ==> less(x, y) || less(y, z))
  }
}
