/** The client's endpoint health registry and its connect-with-failover. */
module Endpoints {
  import opened Wrappers
  import opened Timeline
  import opened Bytes
  import opened EndpointHistory

  datatype Health = Health(consecutiveFailures: nat, demotedUntil: Option<nat>, lastSuccess: Option<nat>) {
    predicate IsDemoted(now: nat) {
      demotedUntil.Some? && demotedUntil.value > now
    }
  }

  const FRESH := Health(0, None, None)

  function HealthOf(m: map<Endpoint, Health>, ep: Endpoint): Health {
    if ep in m then m[ep] else FRESH
  }

  /** An entry says what the history says about its endpoint, now and later. */
  ghost predicate Reflects(h: History, ep: Endpoint, health: Health) {
    && health.consecutiveFailures == Streak(h, ep) && health.lastSuccess == LastSuccessOf(h, ep)
    && forall now: nat :: now >= Clock(h, At) ==> (health.IsDemoted(now) <==> Demoted(h, ep, now))
  }

  lemma SuccessReflects(h: History, idx: nat, ep: Endpoint, now: nat)
    ensures Reflects(h + [Succeeded(idx, ep, now)], ep, Health(0, None, Some(now)))
  {
    hide Demoted;
    Snoc(h, Succeeded(idx, ep, now), ep);
    forall t: nat ensures !Demoted(h + [Succeeded(idx, ep, now)], ep, t) {
      DemotedStep(h, Succeeded(idx, ep, now), ep, t);
    }
  }

  lemma DemotionsEnd(h: History, ep: Endpoint, t: nat)
    requires Clock(h, At) + DEMOTION_DURATION <= t
    requires Ordered(h, At)
    ensures !Demoted(h, ep, t)
  {
  }

  lemma FailureReflects(h: History, ep: Endpoint, now: nat, health: Health)
    requires Ordered(h, At) && Reflects(h, ep, health) && Clock(h, At) <= now
    ensures var h1 := h + [Failed(ep, now)];
            && (Demotes(h, ep) <==> health.consecutiveFailures + 1 >= FAILURE_THRESHOLD)
            && Reflects(h1, ep, if Demotes(h, ep) then health.(consecutiveFailures := 0,
                                                               demotedUntil := Some(now + DEMOTION_DURATION))
                                else health.(consecutiveFailures := health.consecutiveFailures + 1))
  {
    hide Demoted, Ordered;
    var h1 := h + [Failed(ep, now)];
    Snoc(h, Failed(ep, now), ep);
    forall t: nat | t >= now
      ensures Demoted(h1, ep, t) <==> if Demotes(h, ep) then t < now + DEMOTION_DURATION else Demoted(h, ep, t)
    {
      DemotedStep(h, Failed(ep, now), ep, t);
      if Demotes(h, ep) && t >= now + DEMOTION_DURATION {
        DemotionsEnd(h, ep, t);
      }
    }
  }

  lemma OthersReflect(h: History, e: Event, ep: Endpoint, health: Health)
    requires Reflects(h, ep, health) && Clock(h, At) <= e.at && e.ep != ep
    ensures Reflects(h + [e], ep, health)
  {
    hide Demoted;
    Snoc(h, e, ep);
    forall t: nat | t >= e.at ensures Demoted(h + [e], ep, t) == Demoted(h, ep, t) {
      DemotedStep(h, e, ep, t);
    }
  }

  lemma AllReflect(h: History, e: Event, m: map<Endpoint, Health>, entry: Health)
    requires Ordered(h, At) && Clock(h, At) <= e.at && Reflects(h + [e], e.ep, entry)
    requires forall ep :: Reflects(h, ep, HealthOf(m, ep))
    ensures var h1, m1 := h + [e], m[e.ep := entry];
            Ordered(h1, At) && forall ep :: Reflects(h1, ep, HealthOf(m1, ep))
  {
    hide Reflects, Ordered;
    OrderedSnoc(h, e, At);
    var h1, m1 := h + [e], m[e.ep := entry];
    forall ep ensures Reflects(h1, ep, HealthOf(m1, ep)) {
      if ep != e.ep {
        assert HealthOf(m1, ep) == HealthOf(m, ep);
        OthersReflect(h, e, ep, HealthOf(m, ep));
      }
    }
  }

  class EndpointRegistry {
    var health: map<Endpoint, Health>
    var preferredIdx: Option<nat>
    ghost var history: History

    ghost predicate Valid()
      reads this
    {
      && Ordered(history, At)
      && preferredIdx == LastSuccess(history)
      && forall ep :: Reflects(history, ep, HealthOf(health, ep))
    }

    constructor ()
      ensures Valid() && history == []
    {
      health, preferredIdx, history := map[], None, [];
    }

    method RecordSuccess(idx: nat, ep: Endpoint, now: nat)
      requires Valid() && now >= Clock(history, At)
      modifies this
      ensures Valid() && history == old(history) + [Succeeded(idx, ep, now)] && preferredIdx == Some(idx)
    {
      hide Reflects, Ordered;
      ghost var e := Succeeded(idx, ep, now);
      SuccessReflects(history, idx, ep, now);
      AllReflect(history, e, health, Health(0, None, Some(now)));
      Snoc(history, e, ep);
      health := health[ep := Health(0, None, Some(now))];
      preferredIdx := Some(idx);
      history := history + [e];
    }

    /** True exactly when this is the third failure since the endpoint's last success or demotion. */
    method RecordFailure(ep: Endpoint, now: nat) returns (demoted: bool)
      requires Valid() && now >= Clock(history, At)
      modifies this
      ensures Valid() && history == old(history) + [Failed(ep, now)] && preferredIdx == old(preferredIdx)
      ensures demoted <==> Demotes(old(history), ep)
    {
      hide Reflects, Ordered, Demotes;
      ghost var e := Failed(ep, now);
      assert Reflects(history, ep, HealthOf(health, ep));
      FailureReflects(history, ep, now, HealthOf(health, ep));
      Snoc(history, e, ep);
      var entry := HealthOf(health, ep);
      entry := entry.(consecutiveFailures := entry.consecutiveFailures + 1);
      demoted := entry.consecutiveFailures >= FAILURE_THRESHOLD;
      if demoted {
        entry := entry.(demotedUntil := Some(now + DEMOTION_DURATION), consecutiveFailures := 0);
      }
      AllReflect(history, e, health, entry);
      health := health[ep := entry];
      history := history + [e];
    }
  }

  // ----- Failover -----------------------------------------------------------

  ghost predicate Permutation(s: seq<nat>, n: nat) {
    Distinct(s) && forall k: nat :: k in s <==> k < n
  }

  ghost predicate Ascending(s: seq<nat>) {
    forall i, j :: 0 <= i < j < |s| ==> s[i] < s[j]
  }

  /** The indices below `n` that satisfy `p`, in order. */
  function Picked(n: nat, p: nat -> bool): seq<nat> {
    if n == 0 then [] else if p(n - 1) then Picked(n - 1, p) + [n - 1] else Picked(n - 1, p)
  }

  lemma AscendingNone()
    ensures Ascending([])
  {
  }

  lemma AscendingSnoc(s: seq<nat>, x: nat)
    requires Ascending(s) && forall k <- s :: k < x
    ensures Ascending(s + [x])
    ensures forall k :: k in s + [x] <==> k in s || k == x
  {
    assert forall i :: 0 <= i < |s| ==> s[i] in s;
  }

  lemma {:induction false} PickedFacts(n: nat, p: nat -> bool)
    ensures Ascending(Picked(n, p))
    ensures forall k: nat :: k in Picked(n, p) <==> k < n && p(k)
  {
    hide Ascending;
    if n == 0 {
      AscendingNone();
    } else {
      PickedFacts(n - 1, p);
      AscendingSnoc(Picked(n - 1, p), n - 1);
    }
  }

  lemma DistinctParts(a: seq<nat>, b: seq<nat>)
    requires Distinct(a) && Ascending(b) && forall k <- b :: k !in a
    ensures Distinct(a + b)
  {
    var s := a + b;
    forall i, j | 0 <= i < j < |s| ensures s[i] != s[j] {
      assert j >= |a| ==> s[j] == b[j - |a|] && s[j] in b;
    }
  }

  /** An optional leader and two complementary selections from the rest make up a permutation. */
  lemma PickedPermutation(lead: seq<nat>, n: nat, p: nat -> bool, q: nat -> bool)
    requires |lead| <= 1 && (forall k <- lead :: k < n)
    requires forall k: nat :: k < n ==> (k in lead <==> !p(k) && !q(k)) && !(p(k) && q(k))
    ensures Permutation((lead + Picked(n, p)) + Picked(n, q), n)
  {
    PickedFacts(n, p);
    PickedFacts(n, q);
    DistinctParts(lead, Picked(n, p));
    DistinctParts(lead + Picked(n, p), Picked(n, q));
  }

  /** Endpoint `i` was demoted less than 60 seconds ago. */
  function DemotedIn(health: map<Endpoint, Health>, endpoints: seq<Endpoint>, now: nat): nat -> bool {
    (i: nat) => i < |endpoints| && HealthOf(health, endpoints[i]).IsDemoted(now)
  }

  lemma HealthDemoted(reg: EndpointRegistry, endpoints: seq<Endpoint>, now: nat)
    requires reg.Valid() && now >= Clock(reg.history, At)
    ensures forall i: nat :: i < |endpoints| ==>
              (DemotedIn(reg.health, endpoints, now)(i) <==> Demoted(reg.history, endpoints[i], now))
  {
  }

  /** The indices to try, the live ones first: the preferred one leads if it is live, the others keep their order. */
  method OrderedCandidates(reg: EndpointRegistry, endpoints: seq<Endpoint>, now: nat)
    returns (live: seq<nat>, demoted: seq<nat>)
    requires reg.Valid() && now >= Clock(reg.history, At)
    ensures Permutation(live + demoted, |endpoints|)
    ensures forall i <- live :: i < |endpoints| && !Demoted(reg.history, endpoints[i], now)
    ensures forall i <- demoted :: i < |endpoints| && Demoted(reg.history, endpoints[i], now)
    ensures Ascending(demoted)
    ensures match reg.preferredIdx
            case Some(idx) =>
              if idx < |endpoints| && !Demoted(reg.history, endpoints[idx], now)
              then live != [] && live[0] == idx && Ascending(live[1..])
              else Ascending(live)
            case None => Ascending(live)
  {
    hide Demoted, Ordered, Permutation, Ascending, Reflects;
    var preferred, health := reg.preferredIdx, reg.health;
    live, demoted := [], [];
    var pushed := false;
    if preferred.Some? && preferred.value < |endpoints| {
      if !HealthOf(health, endpoints[preferred.value]).IsDemoted(now) {
        live := live + [preferred.value];
        pushed := true;
      }
    }
    ghost var lead, n := live, |endpoints|;
    ghost var d := DemotedIn(health, endpoints, now);
    ghost var p: nat -> bool, q: nat -> bool := (i: nat) => i !in lead && !d(i), (i: nat) => i !in lead && d(i);
    for i := 0 to |endpoints|
      invariant live == lead + Picked(i, p)
      invariant demoted == Picked(i, q)
    {
      if pushed && Some(i) == preferred {
        continue;
      }
      if HealthOf(health, endpoints[i]).IsDemoted(now) {
        demoted := demoted + [i];
      } else {
        live := live + [i];
      }
    }
    assert forall i: nat :: i < n ==> (d(i) <==> Demoted(reg.history, endpoints[i], now)) by {
      HealthDemoted(reg, endpoints, now);
    }
    PickedPermutation(lead, n, p, q);
    PickedFacts(n, p);
    PickedFacts(n, q);
    assert lead == [] ==> live == Picked(n, p);
    assert lead != [] ==> live[1..] == Picked(n, p);
  }

  ghost predicate IsDemoted(h: History, endpoints: seq<Endpoint>, i: nat, now: nat) {
    i < |endpoints| && Demoted(h, endpoints[i], now)
  }

  /** A demoted endpoint comes only after every live one. */
  ghost predicate LiveFirst(h: History, endpoints: seq<Endpoint>, order: seq<nat>, now: nat) {
    forall i, j :: 0 <= i < j < |order| && IsDemoted(h, endpoints, order[i], now) ==>
      IsDemoted(h, endpoints, order[j], now)
  }

  lemma LiveThenDemoted(h: History, endpoints: seq<Endpoint>, live: seq<nat>, demoted: seq<nat>, now: nat)
    requires forall i <- live :: i < |endpoints| && !Demoted(h, endpoints[i], now)
    requires forall i <- demoted :: i < |endpoints| && Demoted(h, endpoints[i], now)
    ensures LiveFirst(h, endpoints, live + demoted, now)
  {
    hide Demoted;
    var order := live + demoted;
    forall i, j | 0 <= i < j < |order| && IsDemoted(h, endpoints, order[i], now)
      ensures IsDemoted(h, endpoints, order[j], now)
    {
      assert j >= |live| ==> order[j] in demoted;
    }
  }

  /** The preferred endpoint, if it is live. */
  ghost function Leader(h: History, endpoints: seq<Endpoint>, preferred: Option<nat>, now: nat): Option<nat> {
    if preferred.Some? && preferred.value < |endpoints| && !Demoted(h, endpoints[preferred.value], now) then preferred
    else None
  }

  /** Apart from the leader, the live endpoints keep the order of the configuration, and so do the demoted ones. */
  ghost predicate KeepsOrder(h: History, endpoints: seq<Endpoint>, order: seq<nat>, leader: Option<nat>, now: nat) {
    forall i, j :: 0 <= i < j < |order| && Some(order[i]) != leader
                   && IsDemoted(h, endpoints, order[i], now) == IsDemoted(h, endpoints, order[j], now) ==>
      order[i] < order[j]
  }

  lemma OrderKept(h: History, endpoints: seq<Endpoint>, live: seq<nat>, demoted: seq<nat>,
      leader: Option<nat>, now: nat)
    requires forall i <- live :: i < |endpoints| && !Demoted(h, endpoints[i], now)
    requires forall i <- demoted :: i < |endpoints| && Demoted(h, endpoints[i], now)
    requires Ascending(demoted)
    requires if leader.Some? then live != [] && live[0] == leader.value && Ascending(live[1..]) else Ascending(live)
    ensures KeepsOrder(h, endpoints, live + demoted, leader, now)
  {
    hide Demoted;
    var order := live + demoted;
    forall k | |live| <= k < |order| ensures IsDemoted(h, endpoints, order[k], now) {
      assert order[k] == demoted[k - |live|] && order[k] in demoted;
    }
    forall i, j | 0 <= i < j < |order| && Some(order[i]) != leader
                  && IsDemoted(h, endpoints, order[i], now) == IsDemoted(h, endpoints, order[j], now)
      ensures order[i] < order[j]
    {
      if i >= |live| {
        assert order[i] == demoted[i - |live|] && order[j] == demoted[j - |live|];
      } else {
        assert order[i] in live && j < |live|;
        assert i > 0 ==> live[1..][i - 1] == order[i] && live[1..][j - 1] == order[j];
      }
    }
  }

  /** What lies outside the client: which attempts succeed, and how the clock moves on. */
  class Surroundings {
    var now: nat
    ghost var attempts: seq<(nat, bool)>   // index tried, and whether it connected

    constructor (now: nat)
      ensures this.now == now && attempts == []
    {
      this.now, attempts := now, [];
    }

    method Tick()
      modifies `now
      ensures now >= old(now)
    {
      var passed: int :| passed >= 0;
      now := now + passed;
    }

    /** `try_endpoint`, with any result. */
    method TryEndpoint(idx: nat) returns (ok: bool)
      modifies this
      ensures now >= old(now) && attempts == old(attempts) + [(idx, ok)]
    {
      Tick();
      ok := *;
      attempts := attempts + [(idx, ok)];
    }
  }

  /** The registry events that a series of attempts amounts to, whatever their times. */
  ghost predicate Records(h: History, attempts: seq<(nat, bool)>, endpoints: seq<Endpoint>) {
    && |h| == |attempts|
    && forall i :: 0 <= i < |h| ==>
         && attempts[i].0 < |endpoints| && h[i].ep == endpoints[attempts[i].0]
         && (attempts[i].1 <==> h[i].Succeeded?)
         && (h[i].Succeeded? ==> h[i].idx == attempts[i].0)
  }

  lemma RecordsNone(h: History, endpoints: seq<Endpoint>)
    ensures Records(h[|h|..], [], endpoints)
  {
  }

  lemma RecordsSnoc(h: History, n: nat, tried: seq<(nat, bool)>, endpoints: seq<Endpoint>, t: (nat, bool), now: nat)
    requires n <= |h| && Records(h[n..], tried, endpoints) && t.0 < |endpoints|
    ensures var e := if t.1 then Succeeded(t.0, endpoints[t.0], now) else Failed(endpoints[t.0], now);
            Records((h + [e])[n..], tried + [t], endpoints)
  {
  }

  lemma {:induction false} PermutationSize(s: seq<nat>, n: nat)
    requires Permutation(s, n)
    ensures |s| == n && forall k <- s :: k < n
    decreases n
  {
    if n == 0 {
      assert forall i :: 0 <= i < |s| ==> s[i] in s;
    } else {
      assert n - 1 in s;
      var i :| 0 <= i < |s| && s[i] == n - 1;
      var rest := s[..i] + s[i + 1..];
      assert forall k: nat :: k in rest <==> k < n - 1 by {
        forall k: nat ensures k in rest <==> k < n - 1 {
          if k in rest {
            var j :| 0 <= j < |rest| && rest[j] == k;
            assert rest[j] == s[if j < i then j else j + 1] && k in s;
          }
          if k < n - 1 {
            assert k in s;
            var j :| 0 <= j < |s| && s[j] == k;
            assert rest[if j < i then j else j - 1] == k;
          }
        }
      }
      PermutationSize(rest, n - 1);
    }
  }

  /** Tries the candidates in order, each at most once, and stops at the first that connects; only if all have
      failed is the result an error. The registry gets exactly one record for each attempt. */
  method ConnectWithFailover(reg: EndpointRegistry, endpoints: seq<Endpoint>, env: Surroundings)
    returns (connected: Option<nat>, ghost order: seq<nat>, ghost tried: seq<(nat, bool)>)
    requires reg.Valid() && env.now >= Clock(reg.history, At)
    modifies reg, env
    ensures reg.Valid() && env.now >= Clock(reg.history, At)
    ensures Permutation(order, |endpoints|) && LiveFirst(old(reg.history), endpoints, order, old(env.now))
    ensures var idx := old(reg.preferredIdx);
            idx.Some? && idx.value < |endpoints| && !Demoted(old(reg.history), endpoints[idx.value], old(env.now)) ==>
              order != [] && order[0] == idx.value
    ensures KeepsOrder(old(reg.history), endpoints, order,
                       Leader(old(reg.history), endpoints, old(reg.preferredIdx), old(env.now)), old(env.now))
    ensures env.attempts == old(env.attempts) + tried
    ensures |tried| <= |order| && forall i :: 0 <= i < |tried| ==> tried[i].0 == order[i]
    ensures match connected
            case Some(idx) =>
              && tried != [] && tried[|tried| - 1] == (idx, true)
              && forall i :: 0 <= i < |tried| - 1 ==> !tried[i].1
            case None => |tried| == |endpoints| && forall i :: 0 <= i < |tried| ==> !tried[i].1
    ensures old(reg.history) <= reg.history && Records(reg.history[|old(reg.history)|..], tried, endpoints)
    ensures reg.preferredIdx == if connected.Some? then connected else old(reg.preferredIdx)
  {
    hide reg.Valid, Demoted, Ordered, Reflects, Permutation, Ascending, Records, LiveFirst, KeepsOrder;
    var live, demoted := OrderedCandidates(reg, endpoints, env.now);
    var all := live + demoted;
    order, tried := all, [];
    LiveThenDemoted(reg.history, endpoints, live, demoted, env.now);
    ghost var leader := Leader(reg.history, endpoints, reg.preferredIdx, env.now);
    OrderKept(reg.history, endpoints, live, demoted, leader, env.now);
    RecordsNone(reg.history, endpoints);
    PermutationSize(all, |endpoints|);
    for i := 0 to |all|
      invariant reg.Valid() && env.now >= Clock(reg.history, At)
      invariant |tried| == i && env.attempts == old(env.attempts) + tried
      invariant forall k :: 0 <= k < i ==> tried[k] == (all[k], false)
      invariant old(reg.history) <= reg.history && Records(reg.history[|old(reg.history)|..], tried, endpoints)
      invariant reg.preferredIdx == old(reg.preferredIdx)
    {
      var idx := all[i];
      assert idx in all;
      var ok := env.TryEndpoint(idx);
      RecordsSnoc(reg.history, |old(reg.history)|, tried, endpoints, (idx, ok), env.now);
      tried := tried + [(idx, ok)];
      if ok {
        reg.RecordSuccess(idx, endpoints[idx], env.now);
        return Some(idx), order, tried;
      }
      var _ := reg.RecordFailure(endpoints[idx], env.now);
    }
    return None, order, tried;
  }
}
