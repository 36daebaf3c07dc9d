/** Histories whose events carry the time at which they happened. */
module Timeline {

  /** The time of the last event. */
  function Clock<E>(h: seq<E>, at: E -> nat): nat {
    if h == [] then 0 else at(h[|h| - 1])
  }

  ghost predicate Ordered<E>(h: seq<E>, at: E -> nat) {
    forall i, j :: 0 <= i <= j < |h| ==> at(h[i]) <= at(h[j])
  }

  lemma OrderedNone<E>(at: E -> nat)
    ensures Ordered([], at)
  {
  }

  lemma OrderedSnoc<E>(g: seq<E>, e: E, at: E -> nat)
    ensures Ordered(g + [e], at) <==> Ordered(g, at) && Clock(g, at) <= at(e)
    ensures Clock(g + [e], at) == at(e)
  {
    var h := g + [e];
    if Ordered(h, at) {
      assert forall i, j :: 0 <= i <= j < |g| ==> at(h[i]) <= at(h[j]) && h[i] == g[i] && h[j] == g[j];
      assert g != [] ==> at(h[|g| - 1]) <= at(h[|g|]);
    }
    if Ordered(g, at) && Clock(g, at) <= at(e) {
      assert forall i :: 0 <= i < |g| ==> at(g[i]) <= at(g[|g| - 1]);
    }
  }
}
