/** Facts about sequences used by several components. */
module Sequences {

  /** No element occurs twice. */
  predicate Distinct<T(==)>(elements: seq<T>) {
    forall i, j :: 0 <= i < j < |elements| ==> elements[i] != elements[j]
  }
}
