/** Parts of a sequence that keep its order. */
module Subsequences {
  /** The chosen places, in order. */
  ghost predicate Picks<T>(part: seq<T>, all: seq<T>, places: seq<nat>) {
    && |places| == |part|
    && (forall i, j :: 0 <= i < j < |places| ==> places[i] < places[j])
    && (forall i :: 0 <= i < |places| ==> places[i] < |all| && all[places[i]] == part[i])
  }

  ghost predicate InOrder<T>(part: seq<T>, all: seq<T>) {
    exists places: seq<nat> :: Picks(part, all, places)
  }

  lemma Nothing<T>(all: seq<T>)
    ensures InOrder([], all)
  {
    assert Picks([], all, []);
  }

  /** An element at the end may be passed over or taken along. */
  lemma Next<T>(part: seq<T>, all: seq<T>, x: T)
    requires InOrder(part, all)
    ensures InOrder(part, all + [x]) && InOrder(part + [x], all + [x])
  {
    var places: seq<nat> :| Picks(part, all, places);
    assert Picks(part, all + [x], places);
    assert Picks(part + [x], all + [x], places + [|all|]);
  }
}
