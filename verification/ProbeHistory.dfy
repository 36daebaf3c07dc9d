/** What the probe tracker promises, said about the full history of calls. Times are in nanoseconds. */
module ProbeHistory {
  import opened Wrappers
  import opened Timeline

  const SECOND: nat := 1_000_000_000
  const FAIL_WINDOW: nat := 60 * SECOND
  const TARPIT_DURATION: nat := 300 * SECOND
  const MAX_FAILS_PER_WINDOW: nat := 10

  datatype IpAddr = V4(bits: nat) | V6(bits: nat)

  datatype Event = Fail(ip: IpAddr, at: nat) | Query(ip: IpAddr, at: nat) | Sweep(at: nat)

  type History = seq<Event>

  function At(e: Event): nat { e.at }

  /** `Instant::duration_since`, which saturates. */
  function Since(now: nat, t: nat): nat {
    if now >= t then now - t else 0
  }

  predicate FailOf(h: History, i: nat, ip: IpAddr)
    requires i < |h|
  {
    h[i].Fail? && h[i].ip == ip
  }

  /** Event `i` is a failure that trips the tarpit. */
  ghost predicate TripAt(h: History, i: nat)
    requires i < |h|
    decreases i, 2
  {
    h[i].Fail? && Trips(h[..i], h[i].ip, h[i].at)
  }

  /** A failure now trips the tarpit: the address is not tarpitted, and its counting failures and this one reach
      the limit. */
  ghost predicate Trips(h: History, ip: IpAddr, now: nat)
    decreases |h|, 1
  {
    !Tarpitted(h, ip, now) && |Counting(h, ip, now)| + 1 >= MAX_FAILS_PER_WINDOW
  }

  /** The address tripped the tarpit less than 300 seconds ago. */
  ghost predicate Tarpitted(h: History, ip: IpAddr, now: nat)
    decreases |h|, 0
  {
    exists i: nat :: i < |h| && FailOf(h, i, ip) && TripAt(h, i) && now < h[i].at + TARPIT_DURATION
  }

  /** The failures that count: in the last 60 seconds, not while tarpitted, and since the last trip. */
  ghost function Counting(h: History, ip: IpAddr, now: nat): set<nat>
    decreases |h|, 0
  {
    set i: nat | i < |h| && FailOf(h, i, ip) && Counts(h, i, ip) && Since(now, h[i].at) < FAIL_WINDOW
  }

  ghost predicate Counts(h: History, i: nat, ip: IpAddr)
    requires i < |h|
    decreases |h|, -1
  {
    && !Tarpitted(h[..i], ip, h[i].at)
    && forall j: nat :: i <= j < |h| && FailOf(h, j, ip) ==> !TripAt(h, j)
  }

  // ----- The same as a fold over the history --------------------------------

  /** The times less than 60 seconds ago. */
  function Retain(ts: seq<nat>, now: nat): (r: seq<nat>)
    ensures |r| <= |ts|
  {
    if ts == [] then []
    else
      var last := ts[|ts| - 1];
      if Since(now, last) < FAIL_WINDOW then Retain(ts[..|ts| - 1], now) + [last] else Retain(ts[..|ts| - 1], now)
  }

  datatype Tally = Tally(counted: seq<nat>, lastTrip: Option<nat>) {
    predicate Tarpitted(now: nat) {
      lastTrip.Some? && now < lastTrip.value + TARPIT_DURATION
    }

    predicate Trips(now: nat) {
      !Tarpitted(now) && |Retain(counted, now)| + 1 >= MAX_FAILS_PER_WINDOW
    }

    function Failed(now: nat): Tally {
      if Tarpitted(now) then this
      else if Trips(now) then Tally([], Some(now))
      else Tally(counted + [now], lastTrip)
    }
  }

  function Replay(h: History, ip: IpAddr): Tally {
    if h == [] then Tally([], None)
    else
      var before, e := Replay(h[..|h| - 1], ip), h[|h| - 1];
      if e.Fail? && e.ip == ip then before.Failed(e.at) else before
  }

  lemma RetainSnoc(ts: seq<nat>, t: nat, now: nat)
    ensures Retain(ts + [t], now) == if Since(now, t) < FAIL_WINDOW then Retain(ts, now) + [t] else Retain(ts, now)
  {
  }

  lemma PrefixTripsAll(g: History, e: Event)
    ensures forall i: nat :: i < |g| ==> (g + [e])[..i] == g[..i]
    ensures forall i: nat :: i < |g| ==> TripAt(g + [e], i) == TripAt(g, i)
    ensures forall i: nat, ip :: i < |g| ==> FailOf(g + [e], i, ip) == FailOf(g, i, ip)
    ensures (g + [e])[..|g|] == g
  {
  }

  /** An event that does not trip this address leaves it tarpitted or not. */
  lemma TarpittedStep(g: History, e: Event, ip: IpAddr, now: nat)
    ensures Tarpitted(g + [e], ip, now) <==>
            Tarpitted(g, ip, now) || (e.Fail? && e.ip == ip && Trips(g, ip, e.at) && now < e.at + TARPIT_DURATION)
  {
    hide Trips;
    var h := g + [e];
    PrefixTripsAll(g, e);
    if Tarpitted(g, ip, now) {
      var i: nat :| i < |g| && FailOf(g, i, ip) && TripAt(g, i) && now < g[i].at + TARPIT_DURATION;
      assert FailOf(h, i, ip) && TripAt(h, i) && h[i] == g[i];
    }
    if e.Fail? && e.ip == ip && Trips(g, ip, e.at) && now < e.at + TARPIT_DURATION {
      assert FailOf(h, |g|, ip) && TripAt(h, |g|);
    }
    if Tarpitted(h, ip, now) {
      var i: nat :| i < |h| && FailOf(h, i, ip) && TripAt(h, i) && now < h[i].at + TARPIT_DURATION;
      if i < |g| {
        assert FailOf(g, i, ip) && TripAt(g, i);
      }
    }
  }

  lemma CountsStep(g: History, e: Event, ip: IpAddr, i: nat)
    requires i < |g| && !(FailOf(g + [e], |g|, ip) && TripAt(g + [e], |g|))
    ensures Counts(g + [e], i, ip) == Counts(g, i, ip)
  {
    hide Trips, Tarpitted, TripAt;
    PrefixTripsAll(g, e);
    var h := g + [e];
    if Counts(h, i, ip) {
      assert forall j: nat :: i <= j < |g| && FailOf(g, j, ip) ==> FailOf(h, j, ip) && !TripAt(h, j);
    }
  }

  /** How one event changes the set of failures that count. */
  lemma CountingStep(g: History, e: Event, ip: IpAddr, now: nat)
    ensures var fails := e.Fail? && e.ip == ip;
            Counting(g + [e], ip, now)
            == if fails && Trips(g, ip, e.at) then {}
               else if fails && !Tarpitted(g, ip, e.at) && Since(now, e.at) < FAIL_WINDOW
                    then Counting(g, ip, now) + {|g|}
               else Counting(g, ip, now)
  {
    hide Trips, Tarpitted;
    var h := g + [e];
    PrefixTripsAll(g, e);
    if e.Fail? && e.ip == ip && Trips(g, ip, e.at) {
      assert FailOf(h, |g|, ip) && TripAt(h, |g|);
      assert forall i: nat :: i < |h| ==> !Counts(h, i, ip);
    } else {
      assert FailOf(h, |g|, ip) ==> !TripAt(h, |g|);
      forall i: nat | i < |g| ensures Counts(h, i, ip) == Counts(g, i, ip) {
        CountsStep(g, e, ip, i);
      }
      assert FailOf(h, |g|, ip) ==> (Counts(h, |g|, ip) <==> !Tarpitted(g, ip, e.at));
    }
  }

  lemma NewIndex(h: History, ip: IpAddr, now: nat)
    ensures |h| !in Counting(h, ip, now)
  {
  }

  lemma SizeStep(s: set<nat>, n: nat)
    requires n !in s
    ensures |s + {n}| == |s| + 1
  {
  }

  lemma RetainNone(now: nat)
    ensures Retain([], now) == []
  {
  }

  /** The fold knows, at any time from now on, whether the address is tarpitted and how many failures count. */
  lemma {:induction false} ReplayMeans(h: History, ip: IpAddr, now: nat)
    requires Ordered(h, At) && now >= Clock(h, At)
    ensures Tarpitted(h, ip, now) <==> Replay(h, ip).Tarpitted(now)
    ensures |Counting(h, ip, now)| == |Retain(Replay(h, ip).counted, now)|
    ensures Replay(h, ip).lastTrip.Some? ==> Replay(h, ip).lastTrip.value <= Clock(h, At)
    decreases |h|
  {
    if h == [] {
      assert Counting(h, ip, now) == {};
    } else {
      hide Tarpitted, Counting, Retain, Ordered;
      var g, e := h[..|h| - 1], h[|h| - 1];
      assert h == g + [e];
      OrderedSnoc(g, e, At);
      ReplayMeans(g, ip, now);
      ReplayMeans(g, ip, e.at);
      TarpittedStep(g, e, ip, now);
      CountingStep(g, e, ip, now);
      NewIndex(g, ip, now);
      SizeStep(Counting(g, ip, now), |g|);
      if e.Fail? && e.ip == ip {
        var r := Replay(g, ip);
        assert Trips(g, ip, e.at) == r.Trips(e.at);
        RetainSnoc(r.counted, e.at, now);
        RetainNone(now);
      }
    }
  }

  /** Dropping what is too old now and again later drops what is too old later. */
  lemma {:induction false} RetainLater(ts: seq<nat>, now: nat, later: nat)
    requires now <= later
    ensures Retain(Retain(ts, now), later) == Retain(ts, later)
    ensures |Retain(ts, later)| <= |Retain(ts, now)|
    decreases ts
  {
    if ts == [] {
    } else {
      var front, last := ts[..|ts| - 1], ts[|ts| - 1];
      RetainLater(front, now, later);
      assert (Retain(front, now) + [last])[..|Retain(front, now)|] == Retain(front, now);
    }
  }

  /** A trip needs the window, so the failures that count stay below the limit. */
  lemma {:induction false} FewCount(h: History, ip: IpAddr)
    requires Ordered(h, At)
    ensures |Retain(Replay(h, ip).counted, Clock(h, At))| < MAX_FAILS_PER_WINDOW
    decreases |h|
  {
    hide Retain, Ordered;
    RetainNone(Clock(h, At));
    if h == [] {
    } else {
      var g, e := h[..|h| - 1], h[|h| - 1];
      assert h == g + [e];
      OrderedSnoc(g, e, At);
      FewCount(g, ip);
      var r := Replay(g, ip);
      RetainLater(r.counted, Clock(g, At), e.at);
      RetainSnoc(r.counted, e.at, e.at);
    }
  }

  // ----- Consequences -------------------------------------------------------

  /** The failures of one address, in order: the only events that matter to it. */
  function Only(h: History, ip: IpAddr): History {
    if h == [] then []
    else
      var front, e := Only(h[..|h| - 1], ip), h[|h| - 1];
      if e.Fail? && e.ip == ip then front + [e] else front
  }

  lemma {:induction false} OnlyReplay(h: History, ip: IpAddr)
    requires Ordered(h, At)
    ensures Replay(Only(h, ip), ip) == Replay(h, ip)
    ensures Ordered(Only(h, ip), At) && Clock(Only(h, ip), At) <= Clock(h, At)
    decreases |h|
  {
    hide Tally.Failed, Ordered;
    assert Ordered([], At) by {
      OrderedNone(At);
    }
    if h == [] {
    } else {
      var g, e := h[..|h| - 1], h[|h| - 1];
      assert h == g + [e];
      OrderedSnoc(g, e, At);
      OnlyReplay(g, ip);
      var front := Only(g, ip);
      OrderedSnoc(front, e, At);
      assert (front + [e])[..|front|] == front;
    }
  }

  /** Queries, sweeps and other addresses' failures change nothing for an address. */
  lemma OnlyOwnFailuresMatter(h: History, ip: IpAddr, now: nat)
    requires Ordered(h, At) && now >= Clock(h, At)
    ensures Trips(h, ip, now) <==> Trips(Only(h, ip), ip, now)
    ensures Tarpitted(h, ip, now) <==> Tarpitted(Only(h, ip), ip, now)
  {
    hide Tarpitted, Counting;
    OnlyReplay(h, ip);
    ReplayMeans(h, ip, now);
    ReplayMeans(Only(h, ip), ip, now);
  }

  /** A trip cannot happen while an earlier one lasts. */
  lemma TarpitOver(g: History, ip: IpAddr, t: nat, now: nat)
    requires Trips(g, ip, t) && now >= t
    ensures !Tarpitted(g, ip, now)
  {
  }

  /** After a trip the address stays tarpitted for exactly 300 seconds, whatever happens meanwhile. */
  lemma {:induction false} TarpitLasts(g: History, ip: IpAddr, t: nat, more: History, now: nat)
    requires var h := g + [Fail(ip, t)] + more; Ordered(h, At) && now >= Clock(h, At)
    requires Trips(g, ip, t)
    requires now < t + TARPIT_DURATION || (forall e <- more :: e != Fail(ip, e.at))
    ensures Tarpitted(g + [Fail(ip, t)] + more, ip, now) <==> now < t + TARPIT_DURATION
    decreases |more|
  {
    hide Tarpitted, Counting, Trips;
    var h := g + [Fail(ip, t)] + more;
    if more == [] {
      assert h == g + [Fail(ip, t)];
      TarpittedStep(g, Fail(ip, t), ip, now);
      TarpitOver(g, ip, t, now);
    } else {
      var front, e := more[..|more| - 1], more[|more| - 1];
      assert h == (g + [Fail(ip, t)] + front) + [e];
      var g1 := g + [Fail(ip, t)] + front;
      OrderedSnoc(g1, e, At);
      TarpittedStep(g1, e, ip, now);
      TarpitLasts(g, ip, t, front, now);
    }
  }
}
