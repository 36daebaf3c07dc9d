/** Two `Bip324Stream`s over one TCP connection, under every schedule of calls and of TCP. */
module Bip324Session {
  import opened Bytes
  import opened Bip324Primitives
  import opened Packets
  import opened Receiving
  import opened Tcp
  import opened Bip324Stream

  /** What `w` writes is what `r` reads, and they started with the same ciphers. */
  ghost predicate Linked(w: Bip324Stream, r: Bip324Stream)
    reads w, w.sendL, w.sendP, w.recvL, w.recvP, w.tcpOut, r, r.sendL, r.sendP, r.recvL, r.recvP, r.tcpIn
  {
    w.p == r.p && w.tcpOut == r.tcpIn && w.sendStart == r.recvStart && w.WriterValid() && r.ReaderValid()
  }

  /** The two endpoints share nothing but the two pipes. */
  ghost predicate Apart(a: Bip324Stream, b: Bip324Stream) {
    && a != b && a.tcpIn != a.tcpOut && a.tcpOut == b.tcpIn && b.tcpOut == a.tcpIn
    && {a.sendL, a.recvL} !! {b.sendL, b.recvL}
    && {a.sendP, a.recvP} !! {b.sendP, b.recvP}
  }

  lemma {:induction false} VisiblePackets(contents: seq<bytes>)
    ensures Visible(AsPackets(contents)) == contents
  {
    if contents == [] {
    } else {
      assert AsPackets(contents)[1..] == AsPackets(contents[1..]);
      VisiblePackets(contents[1..]);
    }
  }

  /** The packets of a valid reader are those of the byte-at-a-time receiver, which failed iff it did. */
  lemma ReaderState(r: Bip324Stream)
    requires r.ReaderValid()
    ensures var s := Run(r.p, Between(r.recvStart, []), r.tcpIn.received);
            s.packets == r.packets && (s.failed <==> r.Rejected())
  {
  }

  lemma ReceivedAll(w: Bip324Stream, r: Bip324Stream)
    requires Linked(w, r) && w.Unsent() == r.tcpIn.inFlight == []
    ensures r.packets == w.committed
  {
    hide Run, EncodeAll;
    var wire, arrived := EncodeAll(w.p, w.sendStart, AsPackets(w.committed)).1, r.tcpIn.received;
    assert wire == arrived;
    ReceivedPrefix(w.p, w.sendStart, AsPackets(w.committed), arrived);
    VisiblePackets(w.committed);
    ReaderState(r);
  }

  /** The bytes delivered are a prefix of the bytes committed, and all of them once the connection is drained.
      No authentication failure can occur. */
  lemma LinkedDelivers(w: Bip324Stream, r: Bip324Stream)
    requires Linked(w, r)
    ensures !r.Rejected() && r.packets <= w.committed && r.delivered <= Concat(w.committed)
    ensures w.Unsent() == r.tcpIn.inFlight == r.Buffered() == [] ==> r.delivered == Concat(w.committed)
  {
    hide Run, EncodeAll, Between, AsPackets, Visible, Concat;
    var wire, arrived := EncodeAll(w.p, w.sendStart, AsPackets(w.committed)).1, r.tcpIn.received;
    assert wire == arrived + (r.tcpIn.inFlight + w.Unsent());
    ReceivedPrefix(w.p, w.sendStart, AsPackets(w.committed), arrived);
    VisiblePackets(w.committed);
    ReaderState(r);
    ConcatPrefix(r.packets, w.committed);
    if w.Unsent() == r.tcpIn.inFlight == [] {
      ReceivedAll(w, r);
    }
  }

  // ----- Every schedule -----------------------------------------------------

  /** A call by endpoint `a` (`atA`) or by endpoint `b`. */
  datatype Call = Write(atA: bool, buf: bytes) | Flush(atA: bool) | Read(atA: bool, cap: nat)

  datatype Outcome = Wrote(written: Poll<nat>) | Flushed(flush: Poll<()>) | Got(read: Poll<bytes>)

  ghost predicate Callable(schedule: seq<Call>) {
    forall i :: 0 <= i < |schedule| && schedule[i].Write? ==> |schedule[i].buf| < CONTENTS_LIMIT
  }

  /** The bytes a call handed to its caller. */
  function Returned(o: Outcome): bytes {
    if o.Got? && o.read.Ready? then o.read.value else []
  }

  /** The bytes a call accepted from its caller. */
  function Accepted(c: Call, o: Outcome): bytes {
    if c.Write? && o.Wrote? && o.written.Ready? then c.buf else []
  }

  /** No poll to write or flush has failed or found the end. */
  ghost predicate Healthy(log: seq<Stop>) {
    Faulted !in log && Ended !in log
  }

  /** Where calls and answers have brought the writer of an endpoint. */
  ghost predicate Queues(x: Bip324Stream, q: Queue)
    reads x, x.tcpOut
  {
    x.committed == q.committed && |x.Unsent()| == q.left && x.tcpOut.writeAnswers == q.answers
  }

  function Called(q: Queue, c: Call): Queue {
    match c
    case Write(_, buf) => q.Written(buf)
    case Flush(_) => q.Flushed()
    case Read(_, _) => q
  }

  /** The writer at one endpoint after a schedule, from its own calls and the answers of TCP to its writes. */
  function QueueAfter(atA: bool, schedule: seq<Call>, answers: seq<Answer>): Queue {
    if schedule == [] then Queue([], 0, answers)
    else
      var last := schedule[|schedule| - 1];
      var before := QueueAfter(atA, schedule[..|schedule| - 1], answers);
      if last.atA == atA then Called(before, last) else before
  }

  lemma QueueStep(atA: bool, schedule: seq<Call>, n: nat, answers: seq<Answer>)
    requires n < |schedule|
    ensures QueueAfter(atA, schedule[..n + 1], answers)
         == if schedule[n].atA == atA then Called(QueueAfter(atA, schedule[..n], answers), schedule[n])
            else QueueAfter(atA, schedule[..n], answers)
  {
    assert schedule[..n + 1][..n] == schedule[..n];
  }

  lemma QueueStart(x: Bip324Stream, y: Bip324Stream, atA: bool)
    requires Linked(x, y) && x.committed == []
    ensures Queues(x, QueueAfter(atA, [], x.tcpOut.writeAnswers))
  {
    assert AsPackets([]) == [];
    assert EncodeAll(x.p, x.sendStart, []).1 == [];
  }

  method MakeWrite(x: Bip324Stream, y: Bip324Stream, buf: bytes) returns (w: Poll<nat>)
    requires Apart(x, y) && Linked(x, y) && Linked(y, x) && [] !in x.committed
    requires |buf| < CONTENTS_LIMIT
    modifies x`flushBuf, x`flushPos, x`committed, x.sendL, x.sendP, x.tcpOut
    ensures Linked(x, y) && Linked(y, x) && [] !in x.committed
    ensures w.Ready? ==> Concat(x.committed) == Concat(old(x.committed)) + buf
    ensures w.Pending? ==> x.committed == old(x.committed)
    ensures w.Failed? ==> Concat(x.committed) ==
                            if old(x.tcpOut.sent + x.Unsent()) <= x.tcpOut.sent
                            then Concat(old(x.committed)) + buf else Concat(old(x.committed))
    ensures Healthy(x.tcpOut.writeStops) ==> Healthy(old(x.tcpOut.writeStops)) && !w.Failed?
    ensures Queues(x, Queue(old(x.committed), |old(x.Unsent())|, old(x.tcpOut.writeAnswers)).Written(buf))
    ensures w.Ready? ==> x.tcpOut.writeStops == old(x.tcpOut.writeStops) + if x.Unsent() == [] then [] else [Waited]
  {
    hide x.Tracks, x.Settled, x.Encrypted, EncodeAll, Concat;
    w := x.PollWrite(buf);
    ConcatSnoc(old(x.committed), buf);
    assert buf == [] ==> Concat(old(x.committed)) + buf == Concat(old(x.committed));
  }

  method MakeFlush(x: Bip324Stream, y: Bip324Stream) returns (f: Poll<()>)
    requires Apart(x, y) && Linked(x, y) && Linked(y, x)
    modifies x`flushBuf, x`flushPos, x.tcpOut
    ensures Linked(x, y) && Linked(y, x)
    ensures f.Ready? ==> x.Unsent() == []
    ensures Healthy(x.tcpOut.writeStops) ==> Healthy(old(x.tcpOut.writeStops))
    ensures Queues(x, Queue(x.committed, |old(x.Unsent())|, old(x.tcpOut.writeAnswers)).Flushed())
  {
    hide x.Tracks, x.Settled, EncodeAll, Concat;
    f := x.PollFlush();
  }

  method MakeRead(x: Bip324Stream, y: Bip324Stream, cap: nat) returns (d: Poll<bytes>)
    requires Apart(x, y) && Linked(x, y) && Linked(y, x) && [] !in y.committed
    modifies x`recvState, x`readBuf, x`readPos, x`packets, x`delivered, x.recvL, x.recvP, x.tcpIn
    ensures Linked(x, y) && Linked(y, x)
    ensures x.delivered == old(x.delivered) + (if d.Ready? then d.value else [])
    ensures d == Ready([]) ==> cap == 0
    ensures d != Failed(Authentication)
    ensures x.tcpIn.writeStops == old(x.tcpIn.writeStops) && x.tcpIn.writeAnswers == old(x.tcpIn.writeAnswers)
  {
    hide x.Tracks, x.Settled, EncodeAll, Concat;
    ghost var n, buffered := |x.packets|, x.Buffered();
    d := x.PollRead(cap);
    LinkedDelivers(y, x);
    assert d.Ready? && buffered == [] ==> x.packets[n] == y.committed[n] && y.committed[n] in y.committed;
  }

  /** One call at `x`, whose peer is `y`. */
  method MakeCall(x: Bip324Stream, y: Bip324Stream, c: Call) returns (o: Outcome)
    requires Apart(x, y) && Linked(x, y) && Linked(y, x)
    requires [] !in x.committed && [] !in y.committed
    requires c.Write? ==> |c.buf| < CONTENTS_LIMIT
    modifies x, x.tcpIn, x.tcpOut, x.sendL, x.sendP, x.recvL, x.recvP
    ensures Linked(x, y) && Linked(y, x) && [] !in x.committed
    ensures x.delivered == old(x.delivered) + Returned(o)
    ensures Healthy(x.tcpOut.writeStops) ==>
              && Healthy(old(x.tcpOut.writeStops))
              && Concat(x.committed) == Concat(old(x.committed)) + Accepted(c, o)
    ensures y.tcpOut.writeStops == old(y.tcpOut.writeStops) && y.tcpOut.writeAnswers == old(y.tcpOut.writeAnswers)
    ensures Queues(x, Called(Queue(old(x.committed), |old(x.Unsent())|, old(x.tcpOut.writeAnswers)), c))
    ensures o.Got? && o.read == Ready([]) ==> c.Read? && c.cap == 0
    ensures o.Got? ==> o.read != Failed(Authentication)
    ensures o == Flushed(Ready(())) ==> x.Unsent() == []
  {
    hide Linked, Concat;
    match c
    case Write(_, buf) =>
      var w := MakeWrite(x, y, buf);
      o := Wrote(w);
    case Flush(_) =>
      var f := MakeFlush(x, y);
      o := Flushed(f);
      assert Concat(x.committed) + [] == Concat(x.committed);
    case Read(_, cap) =>
      var d := MakeRead(x, y, cap);
      o := Got(d);
  }

  /** All bytes that the calls at one endpoint returned. */
  function ReturnedBy(atA: bool, schedule: seq<Call>, trace: seq<Outcome>): bytes
    requires |trace| == |schedule|
  {
    if trace == [] then []
    else
      var last := |trace| - 1;
      ReturnedBy(atA, schedule[..last], trace[..last])
      + if schedule[last].atA == atA then Returned(trace[last]) else []
  }

  /** All bytes that the writes at one endpoint accepted. */
  function AcceptedBy(atA: bool, schedule: seq<Call>, trace: seq<Outcome>): bytes
    requires |trace| == |schedule|
  {
    if trace == [] then []
    else
      var last := |trace| - 1;
      AcceptedBy(atA, schedule[..last], trace[..last])
      + if schedule[last].atA == atA then Accepted(schedule[last], trace[last]) else []
  }

  lemma RecordNothing()
    ensures ReturnedBy(true, [], []) == ReturnedBy(false, [], []) == []
    ensures AcceptedBy(true, [], []) == AcceptedBy(false, [], []) == []
    ensures Concat<byte>([]) == []
  {
  }

  lemma Record(atA: bool, schedule: seq<Call>, trace: seq<Outcome>, o: Outcome)
    requires |trace| < |schedule|
    ensures var n, c, mine := |trace|, schedule[|trace|], schedule[|trace|].atA == atA;
            && ReturnedBy(atA, schedule[..n + 1], trace + [o])
               == (if mine then ReturnedBy(atA, schedule[..n], trace) + Returned(o)
                   else ReturnedBy(atA, schedule[..n], trace))
            && AcceptedBy(atA, schedule[..n + 1], trace + [o])
               == (if mine then AcceptedBy(atA, schedule[..n], trace) + Accepted(c, o)
                   else AcceptedBy(atA, schedule[..n], trace))
  {
    var n := |trace|;
    assert (trace + [o])[..n] == trace && schedule[..n + 1][..n] == schedule[..n];
  }

  /** What the calls so far have come to: the bytes returned and accepted at each end, and the state of both writers,
      whose answers from TCP were `toB` and `toA`. */
  ghost predicate Accounted(a: Bip324Stream, b: Bip324Stream, done: seq<Call>, trace: seq<Outcome>,
      toB: seq<Answer>, toA: seq<Answer>)
    requires |trace| == |done|
    reads a, a.tcpOut, b, b.tcpOut
  {
    && b.delivered == ReturnedBy(false, done, trace) && a.delivered == ReturnedBy(true, done, trace)
    && (Healthy(a.tcpOut.writeStops) ==> Concat(a.committed) == AcceptedBy(true, done, trace))
    && (Healthy(b.tcpOut.writeStops) ==> Concat(b.committed) == AcceptedBy(false, done, trace))
    && Queues(a, QueueAfter(true, done, toB)) && Queues(b, QueueAfter(false, done, toA))
  }

  lemma AccountedStart(a: Bip324Stream, b: Bip324Stream)
    requires Linked(a, b) && Linked(b, a)
    requires a.committed == b.committed == [] && a.delivered == b.delivered == []
    ensures Accounted(a, b, [], [], a.tcpOut.writeAnswers, b.tcpOut.writeAnswers)
  {
    hide Linked, QueueAfter;
    RecordNothing();
    QueueStart(a, b, true);
    QueueStart(b, a, false);
  }

  lemma AccountedEnd(a: Bip324Stream, b: Bip324Stream, done: seq<Call>, trace: seq<Outcome>,
      toB: seq<Answer>, toA: seq<Answer>)
    requires |trace| == |done| && Accounted(a, b, done, trace, toB, toA)
    ensures b.delivered == ReturnedBy(false, done, trace) && a.delivered == ReturnedBy(true, done, trace)
    ensures Healthy(a.tcpOut.writeStops) ==> Concat(a.committed) == AcceptedBy(true, done, trace)
    ensures Healthy(b.tcpOut.writeStops) ==> Concat(b.committed) == AcceptedBy(false, done, trace)
    ensures Queues(a, QueueAfter(true, done, toB)) && Queues(b, QueueAfter(false, done, toA))
  {
  }

  method MakeStep(a: Bip324Stream, b: Bip324Stream, schedule: seq<Call>, ghost trace: seq<Outcome>, c: Call,
      ghost toB: seq<Answer>, ghost toA: seq<Answer>) returns (o: Outcome)
    requires Apart(a, b) && Linked(a, b) && Linked(b, a) && [] !in a.committed && [] !in b.committed
    requires |trace| < |schedule| && schedule[|trace|] == c && (c.Write? ==> |c.buf| < CONTENTS_LIMIT)
    requires Accounted(a, b, schedule[..|trace|], trace, toB, toA)
    modifies a, a.tcpIn, a.tcpOut, a.sendL, a.sendP, a.recvL, a.recvP
    modifies b, b.sendL, b.sendP, b.recvL, b.recvP
    ensures Linked(a, b) && Linked(b, a) && [] !in a.committed && [] !in b.committed
    ensures Accounted(a, b, schedule[..|trace| + 1], trace + [o], toB, toA)
    ensures o.Got? ==> o.read != Failed(Authentication)
    ensures o == Got(Ready([])) ==> c.Read? && c.cap == 0
  {
    hide Linked, Concat, ReturnedBy, AcceptedBy, QueueAfter, Called, Healthy;
    if c.atA {
      o := MakeCall(a, b, c);
    } else {
      o := MakeCall(b, a, c);
    }
    Record(true, schedule, trace, o);
    Record(false, schedule, trace, o);
    QueueStep(true, schedule, |trace|, toB);
    QueueStep(false, schedule, |trace|, toA);
  }

  /** Every interleaving of writes, flushes and reads at both ends, over every behaviour of TCP: each end delivers a
      prefix of what the other committed, which is what its writes accepted as long as TCP takes what it is given.
      Once TCP fails there, bytes of a write that was reported as failed may be delivered too. A read returns no
      bytes only into an empty buffer, and never fails to authenticate. A drained connection has delivered
      everything. What each writer has encrypted, and how much of it TCP has not taken, follows from the calls and the
      answers of TCP. */
  method RunSchedule(a: Bip324Stream, b: Bip324Stream, schedule: seq<Call>) returns (trace: seq<Outcome>)
    requires Apart(a, b) && Linked(a, b) && Linked(b, a)
    requires a.committed == b.committed == [] && a.delivered == b.delivered == []
    requires Callable(schedule)
    modifies a, a.tcpIn, a.tcpOut, a.sendL, a.sendP, a.recvL, a.recvP
    modifies b, b.sendL, b.sendP, b.recvL, b.recvP
    ensures |trace| == |schedule|
    ensures b.delivered == ReturnedBy(false, schedule, trace) && a.delivered == ReturnedBy(true, schedule, trace)
    ensures Healthy(a.tcpOut.writeStops) ==> Concat(a.committed) == AcceptedBy(true, schedule, trace)
    ensures Healthy(b.tcpOut.writeStops) ==> Concat(b.committed) == AcceptedBy(false, schedule, trace)
    ensures b.delivered <= Concat(a.committed) && a.delivered <= Concat(b.committed)
    ensures a.Unsent() == b.tcpIn.inFlight == b.Buffered() == [] ==> b.delivered == Concat(a.committed)
    ensures b.Unsent() == a.tcpIn.inFlight == a.Buffered() == [] ==> a.delivered == Concat(b.committed)
    ensures Queues(a, QueueAfter(true, schedule, old(a.tcpOut.writeAnswers)))
    ensures Queues(b, QueueAfter(false, schedule, old(b.tcpOut.writeAnswers)))
    ensures forall i :: 0 <= i < |trace| && trace[i].Got? ==> trace[i].read != Failed(Authentication)
    ensures forall i :: 0 <= i < |trace| && trace[i] == Got(Ready([])) ==> schedule[i].Read? && schedule[i].cap == 0
  {
    hide Linked, Concat, ReturnedBy, AcceptedBy, QueueAfter, Healthy, Accounted;
    trace := [];
    ghost var toB, toA := a.tcpOut.writeAnswers, b.tcpOut.writeAnswers;
    AccountedStart(a, b);
    while |trace| < |schedule|
      invariant |trace| <= |schedule|
      invariant Linked(a, b) && Linked(b, a) && [] !in a.committed && [] !in b.committed
      invariant Accounted(a, b, schedule[..|trace|], trace, toB, toA)
      invariant forall i :: 0 <= i < |trace| && trace[i].Got? ==> trace[i].read != Failed(Authentication)
      invariant forall i :: 0 <= i < |trace| && trace[i] == Got(Ready([])) ==> schedule[i].Read? && schedule[i].cap == 0
    {
      var o := MakeStep(a, b, schedule, trace, schedule[|trace|], toB, toA);
      trace := trace + [o];
    }
    assert schedule[..|trace|] == schedule;
    AccountedEnd(a, b, schedule, trace, toB, toA);
    LinkedDelivers(a, b);
    LinkedDelivers(b, a);
  }
}
