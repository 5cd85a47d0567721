/** Facts about lists shared by several modules. */
module Seqs {

  /** No element occurs twice. */
  predicate NoDups<T(==)>(xs: seq<T>) {
    forall i, j :: 0 <= i < j < |xs| ==> xs[i] != xs[j]
  }
}
