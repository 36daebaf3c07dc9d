/** When the client demotes an endpoint, said about the full history of connection attempts. */
module EndpointHistory {
  import opened Wrappers
  import opened Timeline

  const FAILURE_THRESHOLD: nat := 3
  const DEMOTION_DURATION: nat := 60_000_000_000   // nanoseconds

  datatype Endpoint = Endpoint(host: string, port: nat)

  datatype Event = Succeeded(idx: nat, ep: Endpoint, at: nat) | Failed(ep: Endpoint, at: nat)

  type History = seq<Event>

  function At(e: Event): nat { e.at }

  /** Failures of `ep` since its last success or demotion. */
  function Streak(h: History, ep: Endpoint): (n: nat)
    ensures n < FAILURE_THRESHOLD
  {
    if h == [] then 0
    else
      var before, e := h[..|h| - 1], h[|h| - 1];
      if e.ep != ep then Streak(before, ep)
      else if e.Succeeded? then 0
      else if Streak(before, ep) + 1 == FAILURE_THRESHOLD then 0   // this failure demotes
      else Streak(before, ep) + 1
  }

  /** A failure now is the third since the last success or demotion. */
  predicate Demotes(h: History, ep: Endpoint) {
    Streak(h, ep) + 1 == FAILURE_THRESHOLD
  }

  /** Failures of `ep` since its last success, whether or not some of them demoted it. */
  function FailuresSinceSuccess(h: History, ep: Endpoint): nat {
    if h == [] then 0
    else
      var before, e := h[..|h| - 1], h[|h| - 1];
      if e.ep != ep then FailuresSinceSuccess(before, ep)
      else if e.Succeeded? then 0
      else FailuresSinceSuccess(before, ep) + 1
  }

  /** So every third failure in a row demotes. */
  lemma {:induction false} EveryThird(h: History, ep: Endpoint)
    ensures Streak(h, ep) == FailuresSinceSuccess(h, ep) % FAILURE_THRESHOLD
    ensures Demotes(h, ep) <==> (FailuresSinceSuccess(h, ep) + 1) % FAILURE_THRESHOLD == 0
    decreases |h|
  {
    if h == [] {
    } else {
      EveryThird(h[..|h| - 1], ep);
    }
  }

  predicate DemotionAt(h: History, i: nat, ep: Endpoint)
    requires i < |h|
  {
    h[i].Failed? && h[i].ep == ep && Demotes(h[..i], ep)
  }

  predicate SuccessAt(h: History, i: nat, ep: Endpoint)
    requires i < |h|
  {
    h[i].Succeeded? && h[i].ep == ep
  }

  /** `ep` was demoted less than 60 seconds ago and has not succeeded since. */
  ghost predicate Demoted(h: History, ep: Endpoint, now: nat) {
    exists i: nat :: i < |h| && DemotionAt(h, i, ep) && now < h[i].at + DEMOTION_DURATION
                     && forall j: nat :: i < j < |h| ==> !SuccessAt(h, j, ep)
  }

  /** The last endpoint that succeeded. */
  function LastSuccess(h: History): Option<nat> {
    if h == [] then None
    else if h[|h| - 1].Succeeded? then Some(h[|h| - 1].idx)
    else LastSuccess(h[..|h| - 1])
  }

  /** When `ep` last succeeded. */
  function LastSuccessOf(h: History, ep: Endpoint): Option<nat> {
    if h == [] then None
    else
      var e := h[|h| - 1];
      if e.Succeeded? && e.ep == ep then Some(e.at) else LastSuccessOf(h[..|h| - 1], ep)
  }

  lemma Snoc(g: History, e: Event, ep: Endpoint)
    ensures Streak(g + [e], ep)
         == if e.ep != ep then Streak(g, ep)
            else if e.Succeeded? || Demotes(g, ep) then 0 else Streak(g, ep) + 1
    ensures LastSuccess(g + [e]) == if e.Succeeded? then Some(e.idx) else LastSuccess(g)
    ensures LastSuccessOf(g + [e], ep) == if e.Succeeded? && e.ep == ep then Some(e.at) else LastSuccessOf(g, ep)
    ensures Clock(g + [e], At) == e.at
  {
  }

  /** How one event changes whether `ep` is demoted. */
  lemma DemotedStep(g: History, e: Event, ep: Endpoint, now: nat)
    ensures Demoted(g + [e], ep, now)
        <==> if e.ep == ep && e.Succeeded? then false
             else Demoted(g, ep, now) || (e.ep == ep && Demotes(g, ep) && now < e.at + DEMOTION_DURATION)
  {
    hide Demotes;
    var h := g + [e];
    assert h[..|g|] == g;
    assert forall i: nat :: i < |g| ==> h[..i] == g[..i] && h[i] == g[i];
    if Demoted(h, ep, now) {
      var i: nat :| i < |h| && DemotionAt(h, i, ep) && now < h[i].at + DEMOTION_DURATION
                    && forall j: nat :: i < j < |h| ==> !SuccessAt(h, j, ep);
      if i < |g| {
        assert DemotionAt(g, i, ep) && !SuccessAt(h, |g|, ep);
        assert forall j: nat :: i < j < |g| ==> SuccessAt(h, j, ep) == SuccessAt(g, j, ep);
      }
    }
    if Demoted(g, ep, now) && !(e.ep == ep && e.Succeeded?) {
      var i: nat :| i < |g| && DemotionAt(g, i, ep) && now < g[i].at + DEMOTION_DURATION
                    && forall j: nat :: i < j < |g| ==> !SuccessAt(g, j, ep);
      assert DemotionAt(h, i, ep);
      assert forall j: nat :: i < j < |g| ==> SuccessAt(h, j, ep) == SuccessAt(g, j, ep);
    }
    if e.ep == ep && e.Failed? && Demotes(g, ep) && now < e.at + DEMOTION_DURATION {
      assert DemotionAt(h, |g|, ep);
    }
  }
}
