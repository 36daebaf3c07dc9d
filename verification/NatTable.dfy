/** The per-session table of UDP destinations. Times are in nanoseconds; both users of the table read the clock
    while they hold its lock. */
module NatTable {
  import opened Wrappers
  import opened Timeline
  import opened ArkFrame

  const UDP_IDLE_TIMEOUT: nat := 60_000_000_000
  const UDP_MAX_DESTINATIONS: nat := 256

  datatype SocketAddr = SocketAddr(ip: seq<nat>, port: u16)

  datatype Entry = Entry(target: FrameTarget, last: nat)

  type Table = map<SocketAddr, Entry>

  datatype Event =
    | Forwarded(addr: SocketAddr, target: FrameTarget, at: nat)
    | Delivered(addr: SocketAddr, at: nat)
    | Dropped(addr: SocketAddr, at: nat)

  type History = seq<Event>

  function At(e: Event): nat { e.at }

  // ----- What the history says ----------------------------------------------

  /** The target of the most recent datagram forwarded to `a`. */
  function LastTarget(h: History, a: SocketAddr): Option<FrameTarget> {
    if h == [] then None
    else
      var e := h[|h| - 1];
      if e.Forwarded? && e.addr == a then Some(e.target) else LastTarget(h[..|h| - 1], a)
  }

  predicate Uses(e: Event, a: SocketAddr) {
    !e.Dropped? && e.addr == a
  }

  /** When a datagram last went to `a` or came back from it. */
  function LastActive(h: History, a: SocketAddr): Option<nat> {
    if h == [] then None
    else if Uses(h[|h| - 1], a) then Some(h[|h| - 1].at)
    else LastActive(h[..|h| - 1], a)
  }

  /** The other addresses in use at `t` or later. */
  ghost function Others(h: History, a: SocketAddr, t: nat): set<SocketAddr> {
    set i: nat | i < |h| && Uses(h[i], h[i].addr) && h[i].at >= t && h[i].addr != a :: h[i].addr
  }

  /** The addresses in use after `t`. */
  ghost function Later(h: History, t: nat): set<SocketAddr> {
    set i: nat | i < |h| && Uses(h[i], h[i].addr) && h[i].at > t :: h[i].addr
  }

  /** Some datagram was forwarded, to whatever address, 60 seconds or more after the last use of `a`. */
  ghost predicate Expired(h: History, a: SocketAddr) {
    LastActive(h, a).Some?
    && exists i: nat :: i < |h| && h[i].Forwarded? && h[i].at >= LastActive(h, a).value + UDP_IDLE_TIMEOUT
  }

  /** 256 other addresses have been in use since the last use of `a`. */
  ghost predicate Crowded(h: History, a: SocketAddr) {
    LastActive(h, a).Some? && |Others(h, a, LastActive(h, a).value)| >= UDP_MAX_DESTINATIONS
  }

  /** The table knows `a` with its last target and time of use, and then `a` has not expired, or it does not, and then
      `a` was never used, has expired, or was crowded out. */
  ghost predicate Describes(h: History, m: Table, a: SocketAddr) {
    if a in m then
      LastTarget(h, a) == Some(m[a].target) && LastActive(h, a) == Some(m[a].last) && !Expired(h, a)
    else
      LastActive(h, a).None? || Expired(h, a) || Crowded(h, a)
  }

  /** An address used after one that the table knows is known as well. */
  ghost predicate KeepsLater(h: History, m: Table) {
    forall a :: a in m ==> Later(h, m[a].last) <= m.Keys
  }

  // ----- Expiry and eviction ------------------------------------------------

  predicate Fresh(e: Entry, now: nat) {
    now < e.last + UDP_IDLE_TIMEOUT
  }

  function Retained(m: Table, now: nat): Table {
    map a | a in m && Fresh(m[a], now) :: m[a]
  }

  ghost predicate Oldest(m: Table, a: SocketAddr) {
    a in m && forall b :: b in m ==> m[a].last <= m[b].last
  }

  lemma {:induction false} OldestExists(m: Table)
    requires m != map[]
    ensures exists a :: Oldest(m, a)
    decreases |m|
  {
    var a :| a in m;
    var rest := m - {a};
    if rest == map[] {
      assert forall b :: b in m ==> b == a by {
        forall b | b in m ensures b == a {
          assert b != a ==> b in rest;
        }
      }
      assert Oldest(m, a);
    } else {
      assert |rest| < |m| by {
        assert rest.Keys == m.Keys - {a};
      }
      OldestExists(rest);
      var b :| Oldest(rest, b);
      assert forall c :: c in m ==> c == a || c in rest;
      assert Oldest(m, if m[a].last <= m[b].last then a else b);
    }
  }

  /** What the forward path does before it inserts: it evicts, then expires. */
  function Purged(m: Table, dest: SocketAddr, victim: SocketAddr, now: nat): Table {
    Retained(if dest !in m && |m| >= UDP_MAX_DESTINATIONS then m - {victim} else m, now)
  }

  lemma SmallerKeys<T>(a: set<T>, b: set<T>)
    requires a <= b
    ensures |a| <= |b| && (|a| == |b| ==> a == b)
  {
    assert b == a + (b - a);
  }

  /** Evicting before expiring comes to the same as expiring first and evicting from what is left: the oldest entry
      has expired if any has. So a live entry is never evicted while an expired one is there. */
  lemma EvictThenExpire(m: Table, dest: SocketAddr, victim: SocketAddr, now: nat)
    requires |m| <= UDP_MAX_DESTINATIONS && Oldest(m, victim)
    ensures var live := Retained(m, now);
            if dest !in live && |live| >= UDP_MAX_DESTINATIONS
            then live == m && Oldest(live, victim) && Purged(m, dest, victim, now) == live - {victim}
            else Purged(m, dest, victim, now) == live
  {
    var live := Retained(m, now);
    SmallerKeys(live.Keys, m.Keys);
    if |live| == |m| {
      assert live.Keys == m.Keys;
      assert live == m;
    } else {
      assert live.Keys != m.Keys;
      assert exists a :: a in m && a !in live;
      assert !Fresh(m[victim], now);
      assert Retained(m - {victim}, now) == live;
    }
  }

  // ----- The history grows --------------------------------------------------

  lemma OthersGrow(h: History, e: Event, a: SocketAddr, t: nat)
    ensures |Others(h, a, t)| <= |Others(h + [e], a, t)|
  {
    var h1 := h + [e];
    forall b | b in Others(h, a, t) ensures b in Others(h1, a, t) {
      var i: nat :| i < |h| && Uses(h[i], h[i].addr) && h[i].at >= t && h[i].addr != a && h[i].addr == b;
      assert h1[i] == h[i];
    }
    SmallerKeys(Others(h, a, t), Others(h1, a, t));
  }

  lemma Unused(h: History, e: Event, a: SocketAddr)
    requires !Uses(e, a)
    ensures LastTarget(h + [e], a) == LastTarget(h, a) && LastActive(h + [e], a) == LastActive(h, a)
  {
  }

  lemma LastEvent(h: History, e: Event)
    ensures e.Forwarded? ==> LastTarget(h + [e], e.addr) == Some(e.target)
    ensures e.Delivered? ==> LastTarget(h + [e], e.addr) == LastTarget(h, e.addr)
    ensures !e.Dropped? ==> LastActive(h + [e], e.addr) == Some(e.at)
  {
  }

  /** An event that does not use `a` makes it expire exactly if it is a forward late enough. */
  lemma ExpiredStep(h: History, e: Event, a: SocketAddr)
    requires !Uses(e, a)
    ensures Expired(h + [e], a) <==>
              Expired(h, a) || (&& LastActive(h, a).Some? && e.Forwarded?
                                && e.at >= LastActive(h, a).value + UDP_IDLE_TIMEOUT)
  {
    hide LastActive;
    Unused(h, e, a);
    var h1 := h + [e];
    if LastActive(h, a).Some? {
      var late := LastActive(h, a).value + UDP_IDLE_TIMEOUT;
      if Expired(h, a) {
        var i: nat :| i < |h| && h[i].Forwarded? && h[i].at >= late;
        assert h1[i] == h[i];
      }
      if e.Forwarded? && e.at >= late {
        assert h1[|h|] == e;
      }
      if Expired(h1, a) {
        var i: nat :| i < |h1| && h1[i].Forwarded? && h1[i].at >= late;
        assert i < |h| ==> h1[i] == h[i];
      }
    }
  }

  /** An address that was just used has not expired. */
  lemma UsedNotExpired(h: History, e: Event)
    requires Ordered(h, At) && Clock(h, At) <= e.at && !e.Dropped?
    ensures !Expired(h + [e], e.addr)
  {
    LastEvent(h, e);
    OrderedSnoc(h, e, At);
    var h1 := h + [e];
    assert forall i :: 0 <= i < |h1| ==> At(h1[i]) <= At(h1[|h|]);
  }

  lemma CrowdedLater(h: History, e: Event, a: SocketAddr)
    requires Crowded(h, a) && !Uses(e, a)
    ensures Crowded(h + [e], a)
  {
    Unused(h, e, a);
    OthersGrow(h, e, a, LastActive(h, a).value);
  }

  /** What the table does not know it still need not know after an event that does not use it. */
  lemma UnknownLater(h: History, m: Table, e: Event, a: SocketAddr)
    requires a !in m && Describes(h, m, a) && !Uses(e, a)
    ensures LastActive(h + [e], a).None? || Expired(h + [e], a) || Crowded(h + [e], a)
  {
    hide LastActive, Others;
    Unused(h, e, a);
    ExpiredStep(h, e, a);
    if Crowded(h, a) {
      CrowdedLater(h, e, a);
    }
  }

  lemma LaterStep(h: History, e: Event, t: nat)
    ensures Later(h + [e], t) <= Later(h, t) + if e.Dropped? || e.at <= t then {} else {e.addr}
  {
    var h1 := h + [e];
    forall b | b in Later(h1, t) ensures b in Later(h, t) || (b == e.addr && !e.Dropped? && e.at > t) {
      var i: nat :| i < |h1| && Uses(h1[i], h1[i].addr) && h1[i].at > t && h1[i].addr == b;
      assert i < |h| ==> h[i] == h1[i];
    }
  }

  /** The time of the last use is at or after that of any use. */
  lemma {:induction false} LaterIsActive(h: History, t: nat, b: SocketAddr)
    requires Ordered(h, At) && b in Later(h, t)
    ensures LastActive(h, b).Some? && LastActive(h, b).value > t
    decreases |h|
  {
    var i: nat :| i < |h| && Uses(h[i], h[i].addr) && h[i].at > t && h[i].addr == b;
    var g, e := h[..|h| - 1], h[|h| - 1];
    if Uses(e, b) {
      assert At(h[i]) <= At(e);
    } else {
      assert h == g + [e];
      OrderedSnoc(g, e, At);
      LaterStep(g, e, t);
      LaterIsActive(g, t, b);
    }
  }

  lemma {:induction false} ActiveWitness(h: History, a: SocketAddr)
    requires LastActive(h, a).Some?
    ensures exists i: nat :: i < |h| && Uses(h[i], a) && h[i].at == LastActive(h, a).value
    decreases |h|
  {
    if Uses(h[|h| - 1], a) {
    } else {
      var g := h[..|h| - 1];
      ActiveWitness(g, a);
      var i: nat :| i < |g| && Uses(g[i], a) && g[i].at == LastActive(g, a).value;
      assert h[i] == g[i];
    }
  }

  /** An evicted entry was the oldest of a full table, so enough others were in use since. */
  lemma EvictedCrowded(h: History, m: Table, e: Event, victim: SocketAddr)
    requires forall a :: a in m ==> Describes(h, m, a)
    requires |m| == UDP_MAX_DESTINATIONS && Oldest(m, victim) && e.addr !in m && e.Forwarded?
    requires e.at >= m[victim].last
    ensures Crowded(h + [e], victim)
  {
    hide LastActive, LastTarget;
    var h1, t := h + [e], m[victim].last;
    assert Describes(h, m, victim);
    Unused(h, e, victim);
    var used := m.Keys - {victim} + {e.addr};
    forall b | b in used ensures b in Others(h1, victim, t) {
      if b == e.addr {
        assert h1[|h|] == e;
      } else {
        assert Describes(h, m, b);
        ActiveWitness(h, b);
        var i: nat :| i < |h| && Uses(h[i], b) && h[i].at == LastActive(h, b).value;
        assert h1[i] == h[i];
      }
    }
    SmallerKeys(used, Others(h1, victim, t));
  }

  /** What a session keeps: never too many entries, each with the target and the time last used for its address, and
      a known reason for every address that the table does not know. */
  ghost predicate Kept(h: History, m: Table) {
    && Ordered(h, At) && |m| <= UDP_MAX_DESTINATIONS
    && (forall a :: Describes(h, m, a))
    && KeepsLater(h, m)
  }

  lemma KeptTimes(h: History, m: Table)
    requires Kept(h, m)
    ensures forall a :: a in m ==> m[a].last <= Clock(h, At)
  {
    hide LastActive, LastTarget, KeepsLater, Expired, Crowded;
    forall a | a in m ensures m[a].last <= Clock(h, At) {
      assert Describes(h, m, a);
      ActiveWitness(h, a);
      var i: nat :| i < |h| && Uses(h[i], a) && h[i].at == LastActive(h, a).value;
      assert At(h[i]) <= At(h[|h| - 1]);
    }
  }

  lemma PurgedSize(m: Table, dest: SocketAddr, victim: SocketAddr, now: nat, entry: Entry)
    requires |m| <= UDP_MAX_DESTINATIONS && (|m| >= UDP_MAX_DESTINATIONS ==> Oldest(m, victim))
    ensures |Purged(m, dest, victim, now)[dest := entry]| <= UDP_MAX_DESTINATIONS
  {
    var p := Purged(m, dest, victim, now);
    assert p[dest := entry].Keys == p.Keys + {dest};
    if dest in m {
      SmallerKeys(p.Keys + {dest}, m.Keys);
    } else if |m| >= UDP_MAX_DESTINATIONS {
      SmallerKeys(p.Keys, m.Keys - {victim});
    } else {
      SmallerKeys(p.Keys, m.Keys);
    }
  }

  lemma ForwardDescribes(h: History, m: Table, e: Event, victim: SocketAddr, after: Table, a: SocketAddr)
    requires e.Forwarded? && Clock(h, At) <= e.at && Kept(h, m)
    requires |m| >= UDP_MAX_DESTINATIONS ==> Oldest(m, victim)
    requires after == Purged(m, e.addr, victim, e.at)[e.addr := Entry(e.target, e.at)]
    ensures Describes(h + [e], after, a)
  {
    hide LastTarget, LastActive, Others, Expired, Crowded, KeepsLater, Ordered;
    assert Describes(h, m, a);
    if a == e.addr {
      LastEvent(h, e);
      UsedNotExpired(h, e);
    } else {
      Unused(h, e, a);
      ExpiredStep(h, e, a);
      if a !in m {
        UnknownLater(h, m, e, a);
      } else if a !in after && Fresh(m[a], e.at) {
        KeptTimes(h, m);
        EvictedCrowded(h, m, e, a);
      }
    }
  }

  lemma NothingLater(h: History, t: nat)
    requires Ordered(h, At) && Clock(h, At) <= t
    ensures Later(h, t) == {}
  {
    assert forall i :: 0 <= i < |h| ==> At(h[i]) <= At(h[|h| - 1]);
  }

  lemma ForwardKeepsLater(h: History, m: Table, e: Event, victim: SocketAddr, after: Table)
    requires e.Forwarded? && Clock(h, At) <= e.at && Kept(h, m)
    requires |m| >= UDP_MAX_DESTINATIONS ==> Oldest(m, victim)
    requires after == Purged(m, e.addr, victim, e.at)[e.addr := Entry(e.target, e.at)]
    ensures KeepsLater(h + [e], after)
  {
    hide LastTarget, LastActive, Others, Expired, Crowded, Ordered;
    forall a, b | a in after && b in Later(h + [e], after[a].last) ensures b in after {
      LaterStep(h, e, after[a].last);
      if a == e.addr && b != e.addr {
        NothingLater(h, e.at);
      } else if b != e.addr {
        assert b in Later(h, m[a].last) && b in m.Keys;
        LaterIsActive(h, m[a].last, b);
        assert Describes(h, m, b);
      }
    }
  }

  lemma ForwardKeeps(h: History, m: Table, e: Event, victim: SocketAddr, after: Table)
    requires e.Forwarded? && Clock(h, At) <= e.at && Kept(h, m)
    requires |m| >= UDP_MAX_DESTINATIONS ==> Oldest(m, victim)
    requires after == Purged(m, e.addr, victim, e.at)[e.addr := Entry(e.target, e.at)]
    ensures Kept(h + [e], after)
  {
    hide Describes, KeepsLater, Purged;
    OrderedSnoc(h, e, At);
    PurgedSize(m, e.addr, victim, e.at, Entry(e.target, e.at));
    ForwardKeepsLater(h, m, e, victim, after);
    forall a ensures Describes(h + [e], after, a) {
      ForwardDescribes(h, m, e, victim, after, a);
    }
  }

  lemma ReplyDescribes(h: History, m: Table, e: Event, after: Table, a: SocketAddr)
    requires !e.Forwarded? && Clock(h, At) <= e.at && (e.Delivered? <==> e.addr in m) && Kept(h, m)
    requires after == if e.Delivered? then m[e.addr := Entry(m[e.addr].target, e.at)] else m
    ensures Describes(h + [e], after, a)
  {
    hide LastTarget, LastActive, Others, Expired, Crowded, KeepsLater, Ordered;
    assert Describes(h, m, a);
    if Uses(e, a) {
      LastEvent(h, e);
      UsedNotExpired(h, e);
    } else {
      Unused(h, e, a);
      ExpiredStep(h, e, a);
      if a !in m {
        UnknownLater(h, m, e, a);
      }
    }
  }

  lemma ReplyKeeps(h: History, m: Table, e: Event, after: Table)
    requires !e.Forwarded? && Clock(h, At) <= e.at && (e.Delivered? <==> e.addr in m) && Kept(h, m)
    requires after == if e.Delivered? then m[e.addr := Entry(m[e.addr].target, e.at)] else m
    ensures Kept(h + [e], after)
  {
    hide Describes, Ordered;
    OrderedSnoc(h, e, At);
    assert after.Keys == m.Keys;
    assert |after| == |after.Keys| == |m.Keys|;
    forall a ensures Describes(h + [e], after, a) {
      ReplyDescribes(h, m, e, after, a);
    }
    forall a | a in after ensures Later(h + [e], after[a].last) <= after.Keys {
      LaterStep(h, e, after[a].last);
      if a == e.addr && e.Delivered? {
        NothingLater(h, e.at);
      }
    }
  }

  lemma NotLaterItself(h: History, a: SocketAddr)
    requires Ordered(h, At) && LastActive(h, a).Some?
    ensures a !in Later(h, LastActive(h, a).value)
  {
    if a in Later(h, LastActive(h, a).value) {
      LaterIsActive(h, LastActive(h, a).value, a);
    }
  }

  /** When the table knows an address that was used. It does not once the address has expired or 256 others have been
      in use later; else it does, unless 256 others have been in use since, some of them at the very same time: then
      `TieEitherWay` shows both outcomes. */
  lemma KnownIff(h: History, m: Table, a: SocketAddr)
    requires Kept(h, m) && LastActive(h, a).Some?
    ensures var t := LastActive(h, a).value;
            && (|Others(h, a, t)| < UDP_MAX_DESTINATIONS ==> (a in m <==> !Expired(h, a)))
            && (|Later(h, t)| >= UDP_MAX_DESTINATIONS ==> a !in m)
  {
    hide LastTarget, LastActive, Others, Expired;
    assert Describes(h, m, a);
    if a in m {
      var t := LastActive(h, a).value;
      NotLaterItself(h, a);
      SmallerKeys(Later(h, t), m.Keys - {a});
    }
  }

  lemma StoredLater(h: History, m: Table, a: SocketAddr)
    requires KeepsLater(h, m) && a in m
    ensures Later(h, m[a].last) <= m.Keys
  {
  }

  /** Two oldest entries leave room for fewer than 256 addresses that are used later than they. */
  lemma TieCount(h: History, m: Table, e: Event, a: SocketAddr, b: SocketAddr)
    requires Kept(h, m) && |m| == UDP_MAX_DESTINATIONS && a != b && a in m && b in m && m[a].last == m[b].last
    ensures |Later(h + [e], m[a].last)| < UDP_MAX_DESTINATIONS
  {
    hide LastTarget, LastActive, Others, Expired, Crowded, Ordered, KeepsLater;
    var t := m[a].last;
    assert Describes(h, m, a) && Describes(h, m, b);
    LaterStep(h, e, t);
    NotLaterItself(h, a);
    NotLaterItself(h, b);
    StoredLater(h, m, a);
    var rest := m.Keys - {a} - {b};
    assert |rest| == UDP_MAX_DESTINATIONS - 2;
    SmallerKeys(Later(h + [e], t), rest + {e.addr});
  }

  lemma PurgedOne(m: Table, dest: SocketAddr, victim: SocketAddr, now: nat, entry: Entry)
    requires dest !in m && |m| == UDP_MAX_DESTINATIONS && victim in m
    ensures victim !in Purged(m, dest, victim, now)[dest := entry]
    ensures forall a :: a in m && a != victim && Fresh(m[a], now) ==> a in Purged(m, dest, victim, now)[dest := entry]
  {
  }

  lemma KeptParts(h: History, m: Table, a: SocketAddr)
    requires Kept(h, m) && a in m
    ensures forall b :: b in m ==> Describes(h, m, b)
    ensures LastActive(h, a) == Some(m[a].last) && !Expired(h, a) && m[a].last <= Clock(h, At)
  {
    hide LastActive, LastTarget, Expired, Crowded;
    assert Describes(h, m, a);
    KeptTimes(h, m);
  }

  /** Between these bounds nothing more can be said: of two oldest entries `a` and `b` of a full table the forward path
      may evict either, and both outcomes have the same history. */
  lemma TieEitherWay(h: History, m: Table, e: Event, a: SocketAddr, b: SocketAddr)
    requires Kept(h, m) && |m| == UDP_MAX_DESTINATIONS && a != b && Oldest(m, a) && Oldest(m, b)
    requires e.Forwarded? && e.addr !in m && Clock(h, At) <= e.at && Fresh(m[a], e.at)
    ensures var h1, entry, t := h + [e], Entry(e.target, e.at), m[a].last;
            var without := Purged(m, e.addr, a, e.at)[e.addr := entry];
            var with := Purged(m, e.addr, b, e.at)[e.addr := entry];
            && Kept(h1, without) && Kept(h1, with) && a !in without && a in with
            && LastActive(h1, a) == Some(t) && !Expired(h1, a)
            && |Others(h1, a, t)| >= UDP_MAX_DESTINATIONS > |Later(h1, t)|
  {
    hide LastTarget, LastActive, Others, Later, Expired, Ordered, KeepsLater, Purged, Kept;
    var h1, entry := h + [e], Entry(e.target, e.at);
    KeptParts(h, m, a);
    Unused(h, e, a);
    ExpiredStep(h, e, a);
    EvictedCrowded(h, m, e, a);
    ForwardKeeps(h, m, e, a, Purged(m, e.addr, a, e.at)[e.addr := entry]);
    ForwardKeeps(h, m, e, b, Purged(m, e.addr, b, e.at)[e.addr := entry]);
    PurgedOne(m, e.addr, a, e.at, entry);
    PurgedOne(m, e.addr, b, e.at, entry);
    TieCount(h, m, e, a, b);
  }

  class NatTable {
    var entries: Table
    ghost var history: History

    ghost predicate Valid()
      reads this
    {
      Kept(history, entries)
    }

    constructor ()
      ensures Valid() && history == [] && entries == map[]
    {
      entries, history := map[], [];
    }

    /** `min_by_key`, which returns some minimum. */
    method FindOldest() returns (victim: SocketAddr)
      requires entries != map[]
      ensures Oldest(entries, victim)
    {
      OldestExists(entries);
      victim :| victim in entries && forall b | b in entries :: entries[victim].last <= entries[b].last;
    }

    /** The table work of the forward path, for a datagram to `target` at the resolved address `dest`. */
    method Forward(dest: SocketAddr, target: FrameTarget, now: nat)
      requires Valid() && now >= Clock(history, At)
      modifies this
      ensures Valid() && history == old(history) + [Forwarded(dest, target, now)]
      ensures exists victim :: (|old(entries)| >= UDP_MAX_DESTINATIONS ==> Oldest(old(entries), victim))
                && entries == Purged(old(entries), dest, victim, now)[dest := Entry(target, now)]
    {
      hide Describes, KeepsLater, Oldest, Retained, Ordered;
      ghost var h, m, e := history, entries, Forwarded(dest, target, now);
      var victim := dest;
      if |entries| >= UDP_MAX_DESTINATIONS {
        OldestExists(entries);
        victim := FindOldest();
        if dest !in entries {
          entries := entries - {victim};
        }
      }
      entries := Retained(entries, now);
      assert entries == Purged(m, dest, victim, now);
      entries := entries[dest := Entry(target, now)];
      history := history + [e];
      ForwardKeeps(h, m, e, victim, entries);
    }

    /** A datagram from `src`: the target to report to the client, or nothing. A reported target is the one last used
        for `src`. An address that was used, with fewer than 256 others in use since, is known exactly if no
        datagram was forwarded 60 seconds or more after its last use; the reply itself may come at any time. */
    method Reply(src: SocketAddr, now: nat) returns (r: Option<FrameTarget>)
      requires Valid() && now >= Clock(history, At)
      modifies this
      ensures Valid() && history == old(history) + [if r.Some? then Delivered(src, now) else Dropped(src, now)]
      ensures r.Some? ==> r == LastTarget(old(history), src) && !Expired(old(history), src)
      ensures r.None? ==>
                LastActive(old(history), src).None? || Expired(old(history), src) || Crowded(old(history), src)
      ensures var t := LastActive(old(history), src);
              t.Some? ==> && (|Others(old(history), src, t.value)| < UDP_MAX_DESTINATIONS ==>
                                (r.Some? <==> !Expired(old(history), src)))
                          && (|Later(old(history), t.value)| >= UDP_MAX_DESTINATIONS ==> r.None?)
      ensures entries == if r.Some? then old(entries)[src := Entry(r.value, now)] else old(entries)
    {
      hide LastTarget, LastActive, Others, Later, Expired, Ordered, KeepsLater;
      assert Describes(history, entries, src);
      if LastActive(history, src).Some? {
        KnownIff(history, entries, src);
      }
      ghost var h, m := history, entries;
      if src in entries {
        var t := entries[src].target;
        history := history + [Delivered(src, now)];
        entries := entries[src := Entry(t, now)];
        r := Some(t);
        ReplyKeeps(h, m, Delivered(src, now), entries);
      } else {
        history := history + [Dropped(src, now)];
        r := None;
        ReplyKeeps(h, m, Dropped(src, now), entries);
      }
    }
  }

  lemma OneForward(a: SocketAddr, target: FrameTarget)
    ensures var h := [Forwarded(a, target, 0)];
            LastTarget(h, a) == Some(target) && LastActive(h, a) == Some(0) && !Expired(h, a)
            && |Others(h, a, 0)| < UDP_MAX_DESTINATIONS
  {
    var h := [Forwarded(a, target, 0)];
    assert Others(h, a, 0) == {};
  }

  /** The timeout is one of forwards: 70 seconds after the only forward, with no other since, the reply is still
      delivered. */
  method LateReply(a: SocketAddr, target: FrameTarget) returns (r: Option<FrameTarget>)
    ensures r == Some(target)
  {
    var table := new NatTable();
    table.Forward(a, target, 0);
    OneForward(a, target);
    r := table.Reply(a, 70_000_000_000);
  }

  /** Any forward in between ends it, wherever it goes. */
  method LateForward(a: SocketAddr, b: SocketAddr, target: FrameTarget, other: FrameTarget)
    returns (r: Option<FrameTarget>)
    requires a != b
    ensures r == None
  {
    var table := new NatTable();
    table.Forward(a, target, 0);
    table.Forward(b, other, UDP_IDLE_TIMEOUT);
    OneForward(a, target);
    ExpiredStep([Forwarded(a, target, 0)], Forwarded(b, other, UDP_IDLE_TIMEOUT), a);
    assert [] + [Forwarded(a, target, 0)] == [Forwarded(a, target, 0)];
    r := table.Reply(a, 70_000_000_000);
  }

  /** Such tables exist: 256 forwards at one time to different addresses leave only oldest entries. */
  method TiedTable(target: FrameTarget) returns (table: NatTable)
    ensures table.Valid() && |table.entries| == UDP_MAX_DESTINATIONS && Clock(table.history, At) == 0
    ensures forall a :: a in table.entries ==> Oldest(table.entries, a) && table.entries[a].last == 0
  {
    hide Kept;
    table := new NatTable();
    for i := 0 to UDP_MAX_DESTINATIONS
      invariant table.Valid() && fresh(table) && |table.entries| == i && Clock(table.history, At) == 0
      invariant forall a :: a in table.entries ==> table.entries[a].last == 0
      invariant forall k: nat :: k >= i ==> SocketAddr([k], 0) !in table.entries
    {
      ghost var m := table.entries;
      table.Forward(SocketAddr([i], 0), target, 0);
      assert Retained(m, 0) == m;
      assert table.entries.Keys == m.Keys + {SocketAddr([i], 0)};
    }
  }
}
