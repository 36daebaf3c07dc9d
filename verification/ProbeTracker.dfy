/** The server's per-address failure tracker, which stores less than the full history. */
module ProbeTracker {
  import opened Wrappers
  import opened Timeline
  import opened ProbeHistory

  datatype IpRecord = IpRecord(fails: seq<nat>, tarpitUntil: Option<nat>) {
    predicate Held(now: nat) {
      tarpitUntil.Some? && tarpitUntil.value > now
    }

    /** What a sweep leaves of a record. */
    function Swept(now: nat): IpRecord {
      if Held(now) then this else IpRecord(Retain(fails, now), None)
    }

    predicate Trips(now: nat) {
      !Held(now) && |Retain(fails, now)| + 1 >= MAX_FAILS_PER_WINDOW
    }

    /** What a failure leaves of a record. */
    function Failed(now: nat): IpRecord {
      if Held(now) then this
      else if Trips(now) then IpRecord([], Some(now + TARPIT_DURATION))
      else IpRecord(Retain(fails, now) + [now], tarpitUntil)
    }
  }

  /** A record, or its absence, answers every later question as the history does. */
  ghost predicate Answers(h: History, ip: IpAddr, rec: Option<IpRecord>) {
    var r, c := Replay(h, ip), Clock(h, At);
    if rec.None? then Retain(r.counted, c) == [] && !r.Tarpitted(c)
    else
      && Retain(rec.value.fails, c) == Retain(r.counted, c)
      && |rec.value.fails| < MAX_FAILS_PER_WINDOW
      && if rec.value.tarpitUntil.Some?
         then r.lastTrip.Some? && rec.value.tarpitUntil.value == r.lastTrip.value + TARPIT_DURATION
         else !r.Tarpitted(c)
  }

  function Lookup(m: map<IpAddr, IpRecord>, ip: IpAddr): Option<IpRecord> {
    if ip in m then Some(m[ip]) else None
  }

  /** The record a failure finds, which is a new one for a new address. */
  function Entry(m: map<IpAddr, IpRecord>, ip: IpAddr): IpRecord {
    if ip in m then m[ip] else IpRecord([], None)
  }

  /** An event that is no failure of this address leaves its record valid. */
  lemma AnswersLater(h: History, e: Event, ip: IpAddr, rec: Option<IpRecord>)
    requires Answers(h, ip, rec) && Clock(h, At) <= e.at && !(e.Fail? && e.ip == ip)
    ensures Answers(h + [e], ip, rec)
  {
    hide Retain;
    assert (h + [e])[..|h|] == h;
    var counted := Replay(h, ip).counted;
    RetainLater(counted, Clock(h, At), e.at);
    if rec.Some? {
      RetainLater(rec.value.fails, Clock(h, At), e.at);
    } else {
      RetainNone(e.at);
    }
  }

  /** So does sweeping it, unless nothing is left to know. */
  lemma AnswersSwept(h: History, ip: IpAddr, rec: IpRecord)
    requires Answers(h, ip, Some(rec))
    ensures Answers(h, ip, Some(rec.Swept(Clock(h, At))))
    ensures !rec.Held(Clock(h, At)) && rec.Swept(Clock(h, At)).fails == [] ==> Answers(h, ip, None)
  {
    RetainLater(rec.fails, Clock(h, At), Clock(h, At));
  }

  ghost predicate AllAnswer(h: History, m: map<IpAddr, IpRecord>) {
    Ordered(h, At) && forall ip :: Answers(h, ip, Lookup(m, ip))
  }

  lemma AllLater(h: History, e: Event, m: map<IpAddr, IpRecord>)
    requires AllAnswer(h, m) && Clock(h, At) <= e.at && !e.Fail?
    ensures AllAnswer(h + [e], m) && Clock(h + [e], At) == e.at
  {
    hide Answers, Ordered, Lookup;
    OrderedSnoc(h, e, At);
    forall q ensures Answers(h + [e], q, Lookup(m, q)) {
      AnswersLater(h, e, q, Lookup(m, q));
    }
  }

  /** After a failure of `ip`, the other records are still valid. */
  lemma AllFailed(h: History, ip: IpAddr, now: nat, m: map<IpAddr, IpRecord>, rec: IpRecord)
    requires AllAnswer(h, m) && Clock(h, At) <= now && Answers(h + [Fail(ip, now)], ip, Some(rec))
    ensures AllAnswer(h + [Fail(ip, now)], m[ip := rec])
  {
    hide Answers, Ordered;
    var h1, m1 := h + [Fail(ip, now)], m[ip := rec];
    OrderedSnoc(h, Fail(ip, now), At);
    forall q ensures Answers(h1, q, Lookup(m1, q)) {
      if q != ip {
        AnswersLater(h, Fail(ip, now), q, Lookup(m, q));
        assert Lookup(m1, q) == Lookup(m, q);
      }
    }
  }

  lemma OneSwept(h: History, m: map<IpAddr, IpRecord>, ip: IpAddr)
    requires AllAnswer(h, m) && ip in m
    ensures AllAnswer(h, m[ip := m[ip].Swept(Clock(h, At))])
  {
    hide Answers, Ordered;
    var m1 := m[ip := m[ip].Swept(Clock(h, At))];
    assert Answers(h, ip, Lookup(m, ip));
    AnswersSwept(h, ip, m[ip]);
    forall q ensures Answers(h, q, Lookup(m1, q)) {
      assert q != ip ==> Lookup(m1, q) == Lookup(m, q);
    }
  }

  /** `HashMap::retain` with the closure of `gc`. */
  function SweptMap(m: map<IpAddr, IpRecord>, now: nat): map<IpAddr, IpRecord> {
    map ip | ip in m && (m[ip].Held(now) || m[ip].Swept(now).fails != []) :: m[ip].Swept(now)
  }

  lemma SweepMeans(h: History, ip: IpAddr, rec: IpRecord)
    requires Ordered(h, At) && Answers(h, ip, Some(rec))
    ensures rec.Held(Clock(h, At)) || rec.Swept(Clock(h, At)).fails != []
            <==> Tarpitted(h, ip, Clock(h, At)) || Counting(h, ip, Clock(h, At)) != {}
  {
    hide Tarpitted, Counting, Retain;
    ReplayMeans(h, ip, Clock(h, At));
    assert Counting(h, ip, Clock(h, At)) != {} <==> |Counting(h, ip, Clock(h, At))| > 0;
  }

  lemma AllSwept(h: History, m: map<IpAddr, IpRecord>)
    requires AllAnswer(h, m)
    ensures AllAnswer(h, SweptMap(m, Clock(h, At)))
    ensures SweptMap(m, Clock(h, At)).Keys
         == set ip | ip in m && (Tarpitted(h, ip, Clock(h, At)) || Counting(h, ip, Clock(h, At)) != {})
  {
    hide Answers, Ordered, Tarpitted, Counting, Retain;
    var now, swept := Clock(h, At), SweptMap(m, Clock(h, At));
    forall q ensures Answers(h, q, Lookup(swept, q)) {
      assert Answers(h, q, Lookup(m, q));
      if q in m {
        AnswersSwept(h, q, m[q]);
      }
    }
    forall q | q in m ensures q in swept <==> Tarpitted(h, q, now) || Counting(h, q, now) != {} {
      assert Answers(h, q, Lookup(m, q));
      SweepMeans(h, q, m[q]);
    }
  }

  lemma StoredAnswers(h: History, m: map<IpAddr, IpRecord>, ip: IpAddr)
    requires AllAnswer(h, m)
    ensures Ordered(h, At) && Answers(h, ip, Lookup(m, ip))
  {
  }

  lemma KeysSize(all: set<IpAddr>, kept: set<IpAddr>)
    requires kept <= all
    ensures |all| - |kept| == |all - kept|
  {
  }

  lemma QueryMeans(h: History, ip: IpAddr, now: nat, rec: Option<IpRecord>)
    requires Ordered(h, At) && now >= Clock(h, At) && Answers(h, ip, rec)
    ensures Tarpitted(h, ip, now) <==> rec.Some? && rec.value.Held(now)
  {
    hide Tarpitted, Counting, Retain;
    ReplayMeans(h, ip, now);
  }

  /** The record decides a failure as the history does, and its update describes the longer history. */
  lemma FailureMeans(h: History, ip: IpAddr, now: nat, m: map<IpAddr, IpRecord>)
    requires Ordered(h, At) && now >= Clock(h, At) && Answers(h, ip, Lookup(m, ip))
    ensures Trips(h, ip, now) <==> Entry(m, ip).Trips(now)
    ensures Answers(h + [Fail(ip, now)], ip, Some(Entry(m, ip).Failed(now)))
  {
    hide Tarpitted, Counting, Retain;
    var rec, r, h1 := Entry(m, ip), Replay(h, ip), h + [Fail(ip, now)];
    assert h1[..|h|] == h;
    ReplayMeans(h, ip, now);
    RetainNone(now);
    RetainLater(r.counted, Clock(h, At), now);
    RetainLater(rec.fails, Clock(h, At), now);
    RetainLater(rec.fails, now, now);
    RetainSnoc(r.counted, now, now);
    RetainSnoc(Retain(rec.fails, now), now, now);
    if ip !in m {
      RetainNone(Clock(h, At));
    }
  }

  // ----- What holds for calls in any order of their times -------------------

  /** The times of the failures of an address, in order of the calls. */
  function Times(h: History, ip: IpAddr): seq<nat> {
    if h == [] then []
    else
      var front, e := Times(h[..|h| - 1], ip), h[|h| - 1];
      if e.Fail? && e.ip == ip then front + [e.at] else front
  }

  /** `a` is `b` with some of its elements left out. */
  ghost predicate Within(a: seq<nat>, b: seq<nat>) {
    a == [] ||
    (b != [] &&
     var front, last := b[..|b| - 1], b[|b| - 1];
     Within(a, front) || (a[|a| - 1] == last && Within(a[..|a| - 1], front)))
  }

  lemma WithinNone(b: seq<nat>)
    ensures Within([], b)
  {
  }

  lemma WithinSnoc(a: seq<nat>, b: seq<nat>, t: nat)
    requires Within(a, b)
    ensures Within(a, b + [t]) && Within(a + [t], b + [t])
  {
    assert (b + [t])[..|b|] == b && (a + [t])[..|a|] == a;
  }

  lemma {:induction false} RetainWithin(a: seq<nat>, b: seq<nat>, now: nat)
    requires Within(a, b)
    ensures Within(Retain(a, now), b) && |Retain(a, now)| <= |Retain(b, now)|
    decreases b
  {
    if a == [] {
    } else {
      var front, last := b[..|b| - 1], b[|b| - 1];
      assert b == front + [last];
      if Within(a, front) {
        RetainWithin(a, front, now);
        WithinSnoc(Retain(a, now), front, last);
      } else {
        RetainWithin(a[..|a| - 1], front, now);
        WithinSnoc(Retain(a[..|a| - 1], now), front, last);
      }
    }
  }

  /** The failures of an address in the last 60 seconds or later. */
  ghost function Recent(h: History, ip: IpAddr, now: nat): set<nat> {
    set i: nat | i < |h| && FailOf(h, i, ip) && Since(now, h[i].at) < FAIL_WINDOW
  }

  lemma {:induction false} RecentSize(h: History, ip: IpAddr, now: nat)
    ensures |Recent(h, ip, now)| == |Retain(Times(h, ip), now)|
    decreases |h|
  {
    hide Retain;
    RetainNone(now);
    if h == [] {
      assert Recent(h, ip, now) == {};
    } else {
      var g, e := h[..|h| - 1], h[|h| - 1];
      RecentSize(g, ip, now);
      var counts := e.Fail? && e.ip == ip && Since(now, e.at) < FAIL_WINDOW;
      assert forall i: nat :: i < |g| ==> FailOf(h, i, ip) == FailOf(g, i, ip);
      assert Recent(h, ip, now) == if counts then Recent(g, ip, now) + {|g|} else Recent(g, ip, now);
      SizeStep(Recent(g, ip, now), |g|);
      RetainSnoc(Times(g, ip), e.at, now);
    }
  }

  ghost predicate Started(h: History, ip: IpAddr, until: nat) {
    exists i: nat :: i < |h| && FailOf(h, i, ip) && until == h[i].at + TARPIT_DURATION
  }

  /** A record stores failures of its address, fewer than ten, and a tarpit that one of them started. */
  ghost predicate Backed(h: History, ip: IpAddr, rec: IpRecord) {
    && Within(rec.fails, Times(h, ip)) && |rec.fails| < MAX_FAILS_PER_WINDOW
    && (rec.tarpitUntil.Some? ==> Started(h, ip, rec.tarpitUntil.value))
  }

  ghost predicate AllBacked(h: History, m: map<IpAddr, IpRecord>) {
    forall ip :: ip in m ==> Backed(h, ip, m[ip])
  }

  lemma StartedLater(h: History, e: Event, ip: IpAddr, until: nat)
    requires Started(h, ip, until)
    ensures Started(h + [e], ip, until)
  {
    var i: nat :| i < |h| && FailOf(h, i, ip) && until == h[i].at + TARPIT_DURATION;
    assert FailOf(h + [e], i, ip) && (h + [e])[i] == h[i];
  }

  lemma BackedLater(h: History, e: Event, ip: IpAddr, rec: IpRecord)
    requires Backed(h, ip, rec)
    ensures Backed(h + [e], ip, rec)
  {
    hide Started, Within;
    assert (h + [e])[..|h|] == h;
    if rec.tarpitUntil.Some? {
      StartedLater(h, e, ip, rec.tarpitUntil.value);
    }
    WithinSnoc(rec.fails, Times(h, ip), e.at);
  }

  lemma BackedSwept(h: History, ip: IpAddr, rec: IpRecord, now: nat)
    requires Backed(h, ip, rec)
    ensures Backed(h, ip, rec.Swept(now))
  {
    hide Started, Within;
    RetainWithin(rec.fails, Times(h, ip), now);
  }

  lemma BackedEntry(h: History, ip: IpAddr, m: map<IpAddr, IpRecord>)
    requires AllBacked(h, m)
    ensures Backed(h, ip, Entry(m, ip))
  {
  }

  /** A record trips only on ten recent failures, whatever the order of the calls. */
  lemma BackedFailed(h: History, ip: IpAddr, rec: IpRecord, now: nat)
    requires Backed(h, ip, rec)
    ensures Backed(h + [Fail(ip, now)], ip, rec.Failed(now))
    ensures rec.Trips(now) ==> |Recent(h, ip, now)| + 1 >= MAX_FAILS_PER_WINDOW
  {
    hide Within, Retain, Recent;
    var h1 := h + [Fail(ip, now)];
    assert h1[..|h|] == h && Times(h1, ip) == Times(h, ip) + [now];
    BackedLater(h, Fail(ip, now), ip, rec);
    RetainWithin(rec.fails, Times(h, ip), now);
    WithinSnoc(Retain(rec.fails, now), Times(h, ip), now);
    WithinNone(Times(h1, ip));
    RecentSize(h, ip, now);
    assert FailOf(h1, |h|, ip) && h1[|h|].at == now;
  }

  lemma AllBackedLater(h: History, e: Event, m: map<IpAddr, IpRecord>)
    requires AllBacked(h, m)
    ensures AllBacked(h + [e], m)
  {
    hide Backed;
    forall ip | ip in m ensures Backed(h + [e], ip, m[ip]) {
      BackedLater(h, e, ip, m[ip]);
    }
  }

  lemma AllBackedSwept(h: History, m: map<IpAddr, IpRecord>, now: nat)
    requires AllBacked(h, m)
    ensures AllBacked(h, SweptMap(m, now))
  {
    hide Backed;
    forall ip | ip in m ensures Backed(h, ip, m[ip].Swept(now)) {
      BackedSwept(h, ip, m[ip], now);
    }
  }

  // ----- What one call keeps --------------------------------------------------

  lemma QueryKeeps(h: History, ip: IpAddr, now: nat, m: map<IpAddr, IpRecord>)
    requires AllBacked(h, m) && (Ordered(h, At) ==> AllAnswer(h, m))
    ensures var h1 := h + [Query(ip, now)];
            && AllBacked(h1, m) && (ip in m ==> AllBacked(h1, m[ip := m[ip].Swept(now)]))
            && (Ordered(h1, At) ==>
                  && AllAnswer(h1, m) && (ip in m ==> AllAnswer(h1, m[ip := m[ip].Swept(now)]))
                  && (Tarpitted(h, ip, now) <==> ip in m && m[ip].Held(now)))
            && (ip in m && m[ip].Held(now) ==> Started(h1, ip, m[ip].tarpitUntil.value))
  {
    hide Answers, Started, Tarpitted, Ordered;
    var e := Query(ip, now);
    AllBackedLater(h, e, m);
    if ip in m {
      BackedSwept(h + [e], ip, m[ip], now);
    }
    OrderedSnoc(h, e, At);
    if Ordered(h + [e], At) {
      StoredAnswers(h, m, ip);
      QueryMeans(h, ip, now, Lookup(m, ip));
      AllLater(h, e, m);
      if ip in m {
        OneSwept(h + [e], m, ip);
      }
    }
  }

  lemma FailureKeeps(h: History, ip: IpAddr, now: nat, m: map<IpAddr, IpRecord>)
    requires AllBacked(h, m) && (Ordered(h, At) ==> AllAnswer(h, m))
    ensures var h1, m1 := h + [Fail(ip, now)], m[ip := Entry(m, ip).Failed(now)];
            && AllBacked(h1, m1)
            && (Ordered(h1, At) ==> AllAnswer(h1, m1) && (Trips(h, ip, now) <==> Entry(m, ip).Trips(now)))
            && (Entry(m, ip).Trips(now) ==> |Recent(h, ip, now)| + 1 >= MAX_FAILS_PER_WINDOW)
  {
    hide Answers, AllAnswer, Backed, Trips, Ordered, IpRecord.Trips, IpRecord.Failed, Recent, Entry;
    BackedEntry(h, ip, m);
    BackedFailed(h, ip, Entry(m, ip), now);
    AllBackedLater(h, Fail(ip, now), m);
    OrderedSnoc(h, Fail(ip, now), At);
    if Ordered(h + [Fail(ip, now)], At) {
      StoredAnswers(h, m, ip);
      FailureMeans(h, ip, now, m);
      AllFailed(h, ip, now, m, Entry(m, ip).Failed(now));
    }
  }

  lemma SweepKeeps(h: History, now: nat, m: map<IpAddr, IpRecord>)
    requires AllBacked(h, m) && (Ordered(h, At) ==> AllAnswer(h, m))
    ensures var h1, m1 := h + [Sweep(now)], SweptMap(m, now);
            && AllBacked(h1, m1) && m1.Keys <= m.Keys
            && (Ordered(h1, At) ==>
                  && AllAnswer(h1, m1)
                  && m1.Keys == set ip | ip in m && (Tarpitted(h1, ip, now) || Counting(h1, ip, now) != {}))
  {
    hide AllAnswer, AllBacked, Tarpitted, Counting, Ordered;
    AllBackedLater(h, Sweep(now), m);
    AllBackedSwept(h + [Sweep(now)], m, now);
    OrderedSnoc(h, Sweep(now), At);
    if Ordered(h + [Sweep(now)], At) {
      AllLater(h, Sweep(now), m);
      AllSwept(h + [Sweep(now)], m);
    }
  }

  class ProbeTracker {
    var inner: map<IpAddr, IpRecord>
    ghost var history: History   // every call so far

    /** Only while the times of the calls do not decrease do the records answer as the history does. */
    ghost predicate Valid()
      reads `inner, `history
    {
      AllBacked(history, inner) && (Ordered(history, At) ==> AllAnswer(history, inner))
    }

    constructor ()
      ensures Valid() && history == [] && inner == map[]
    {
      inner, history := map[], [];
    }

    /** Between calls fewer than ten failures of an address are stored. */
    lemma FewStored(ip: IpAddr)
      requires Valid() && ip in inner
      ensures |inner[ip].fails| < MAX_FAILS_PER_WINDOW
    {
      assert Backed(history, ip, inner[ip]);
    }

    method IsTarpittedAt(ip: IpAddr, now: nat) returns (r: bool)
      requires Valid()
      modifies this
      ensures Valid() && history == old(history) + [Query(ip, now)]
      ensures Ordered(history, At) ==> (r <==> Tarpitted(old(history), ip, now))
      ensures r <==> ip in old(inner) && old(inner)[ip].Held(now)
      ensures r ==> exists until :: Started(history, ip, until) && now < until
      ensures inner == if ip in old(inner) && old(inner)[ip].tarpitUntil.Some?
                       then old(inner)[ip := old(inner)[ip].Swept(now)] else old(inner)
    {
      hide Answers, AllAnswer, AllBacked, Tarpitted, Ordered, Started;
      ghost var h := history;
      history := h + [Query(ip, now)];
      QueryKeeps(h, ip, now, inner);
      if ip !in inner {
        return false;
      }
      var rec := inner[ip];
      if rec.tarpitUntil.None? {
        return false;
      }
      if rec.tarpitUntil.value > now {
        assert inner[ip := rec] == inner;
        return true;
      }
      inner := inner[ip := IpRecord(Retain(rec.fails, now), None)];
      return false;
    }

    /** True exactly when this failure trips the tarpit; in no order of the times without ten recent failures. */
    method RecordFailureAt(ip: IpAddr, now: nat) returns (tripped: bool)
      requires Valid()
      modifies this
      ensures Valid() && history == old(history) + [Fail(ip, now)]
      ensures Ordered(history, At) ==> (tripped <==> Trips(old(history), ip, now))
      ensures tripped ==> |Recent(old(history), ip, now)| + 1 >= MAX_FAILS_PER_WINDOW
      ensures tripped <==> Entry(old(inner), ip).Trips(now)
      ensures inner == old(inner)[ip := Entry(old(inner), ip).Failed(now)]
    {
      hide Answers, AllAnswer, AllBacked, Trips, Ordered, Retain, Recent;
      ghost var h, m := history, inner;
      history := h + [Fail(ip, now)];
      FailureKeeps(h, ip, now, m);
      if ip !in inner {
        inner := inner[ip := IpRecord([], None)];
      }
      var rec := inner[ip];
      if rec.tarpitUntil.Some? && rec.tarpitUntil.value > now {
        assert inner == m[ip := rec];
        return false;
      }
      var fails := Retain(rec.fails, now);
      fails := fails + [now];
      if |fails| >= MAX_FAILS_PER_WINDOW {
        rec := IpRecord([], Some(now + TARPIT_DURATION));
        tripped := true;
      } else {
        rec := rec.(fails := fails);
        tripped := false;
      }
      assert inner[ip := rec] == m[ip := rec];
      inner := inner[ip := rec];
    }

    /** Keeps exactly the addresses that are tarpitted or have a failure that still counts. */
    method Gc(now: nat) returns (evicted: nat)
      requires Valid()
      modifies this
      ensures Valid() && history == old(history) + [Sweep(now)]
      ensures Ordered(history, At) ==>
                inner.Keys
                == set ip | ip in old(inner) && (Tarpitted(history, ip, now) || Counting(history, ip, now) != {})
      ensures inner == SweptMap(old(inner), now) && evicted == |old(inner).Keys - inner.Keys|
    {
      hide Tarpitted, Counting, AllAnswer, AllBacked, Ordered, SweptMap;
      ghost var h := history;
      history := h + [Sweep(now)];
      SweepKeeps(h, now, inner);
      var before := |inner|;
      KeysSize(inner.Keys, SweptMap(inner, now).Keys);
      inner := SweptMap(inner, now);
      evicted := before - |inner|;
    }
  }

  // ----- The order of the calls matters -------------------------------------

  function Repeat<T>(t: T, n: nat): (r: seq<T>)
    ensures |r| == n
  {
    seq(n, _ => t)
  }

  lemma RepeatSnoc<T>(t: T, n: nat)
    ensures Repeat(t, n + 1) == Repeat(t, n) + [t]
  {
  }

  /** Nine failures at time 0 and one after a minute. */
  function Mixed(ip: IpAddr): History {
    Repeat(Fail(ip, 0), 9) + [Fail(ip, FAIL_WINDOW)]
  }

  lemma {:induction false} RetainZeros(n: nat, now: nat)
    ensures Retain(Repeat<nat>(0, n), now) == if now < FAIL_WINDOW then Repeat<nat>(0, n) else []
  {
    if n == 0 {
    } else {
      hide Repeat, Retain;
      RetainZeros(n - 1, now);
      RepeatSnoc<nat>(0, n - 1);
      RetainSnoc(Repeat<nat>(0, n - 1), 0, now);
    }
  }

  lemma {:induction false} Nine(ip: IpAddr, n: nat)
    requires n <= 9
    ensures Replay(Repeat(Fail(ip, 0), n), ip) == Tally(Repeat<nat>(0, n), None)
  {
    if n == 0 {
    } else {
      hide Repeat, Retain;
      Nine(ip, n - 1);
      RepeatSnoc(Fail(ip, 0), n - 1);
      RepeatSnoc<nat>(0, n - 1);
      RetainZeros(n - 1, 0);
      var before := Repeat(Fail(ip, 0), n - 1);
      assert (before + [Fail(ip, 0)])[..n - 1] == before;
    }
  }

  /** A failure stamped a second before the last of them has ten recent failures before it. */
  lemma MixedTrips(ip: IpAddr)
    ensures Trips(Mixed(ip), ip, FAIL_WINDOW - SECOND)
  {
    hide Tarpitted, Counting, Retain;
    var nine := Repeat(Fail(ip, 0), 9);
    var now := FAIL_WINDOW - SECOND;
    Nine(ip, 9);
    RetainZeros(9, now);
    RetainZeros(9, FAIL_WINDOW);
    ReplayMeans(nine, ip, now);
    ReplayMeans(nine, ip, FAIL_WINDOW);
    TarpittedStep(nine, Fail(ip, FAIL_WINDOW), ip, now);
    CountingStep(nine, Fail(ip, FAIL_WINDOW), ip, now);
    NewIndex(nine, ip, now);
    SizeStep(Counting(nine, ip, now), |nine|);
  }

  /** Where a call that read its clock earlier gets the lock later, the history trips and the tracker does not: it
      has already forgotten the failures that are too old for the later time. */
  method LateStamp(ip: IpAddr) returns (tracker: ProbeTracker, tripped: bool)
    ensures tracker.Valid() && tracker.history == Mixed(ip) + [Fail(ip, FAIL_WINDOW - SECOND)]
    ensures !tripped && Trips(Mixed(ip), ip, FAIL_WINDOW - SECOND)
  {
    hide Trips, Retain, Recent, AllBacked, AllAnswer, Ordered;
    tracker := new ProbeTracker();
    for i := 0 to 9
      invariant tracker.Valid() && fresh(tracker)
      invariant tracker.history == Repeat(Fail(ip, 0), i)
      invariant Entry(tracker.inner, ip) == IpRecord(Repeat<nat>(0, i), None)
    {
      RetainZeros(i, 0);
      var _ := tracker.RecordFailureAt(ip, 0);
      RepeatSnoc<nat>(0, i);
      RepeatSnoc(Fail(ip, 0), i);
    }
    RetainZeros(9, FAIL_WINDOW);
    var _ := tracker.RecordFailureAt(ip, FAIL_WINDOW);
    assert Entry(tracker.inner, ip) == IpRecord([FAIL_WINDOW], None);
    tripped := tracker.RecordFailureAt(ip, FAIL_WINDOW - SECOND);
    MixedTrips(ip);
  }
}
