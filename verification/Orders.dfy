/** Iteration orders of a Go map: every enumeration of its keys without repetition. */
module Orders {

  ghost predicate IsOrder<T(!new)>(order: seq<T>, keys: set<T>) {
    && (forall i, j :: 0 <= i < j < |order| ==> order[i] != order[j])
    && (forall t :: t in order <==> t in keys)
  }

  lemma Enumerate<T(!new)>(keys: set<T>) returns (order: seq<T>)
    ensures IsOrder(order, keys)
  {
    order := [];
    var rest := keys;
    while rest != {}
      invariant rest <= keys && IsOrder(order, keys - rest)
    {
      var t :| t in rest;
      order, rest := order + [t], rest - {t};
    }
  }
}
