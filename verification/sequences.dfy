/** Facts about sequences shared by the weighted vertices and the linked list. */
module Sequences {

  /** No element occurs twice. */
  predicate Distinct<X(==)>(xs: seq<X>)
  {
    forall i, j :: 0 <= i < j < |xs| ==> xs[i] != xs[j]
  }
}
