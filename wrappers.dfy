/** Option and Outcome, the two failure-carrying values the model uses in place of
    Kotlin's nullable results and thrown exceptions. */
module Wrappers {

  /** A value that may be absent (Kotlin's `T?`). */
  datatype Option<+T> = None | Some(value: T)

  /** The result of an operation that returns nothing on success and fails with `error`
      (an exception, in the source) otherwise. */
  datatype Outcome<+E> = Pass | Fail(error: E)

  /** No element of `s` occurs twice (a Kotlin `Set` or `Map` key list in iteration order). */
  predicate Distinct<T(==)>(s: seq<T>) {
    forall i, j :: 0 <= i < j < |s| ==> s[i] != s[j]
  }

  /** The first components of a list of pairs, in order: the keys of a map kept as its
      entries in iteration order. */
  function Keys<K, V>(entries: seq<(K, V)>): seq<K> {
    seq(|entries|, i requires 0 <= i < |entries| => entries[i].0)
  }

  /** The elements of `s`, forgetting order. */
  function Elements<T>(s: seq<T>): set<T> {
    set x | x in s
  }
}
