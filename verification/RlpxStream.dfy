/** The write side of the poll-driven byte stream over an RLPx connection. */
module RlpxStream {
  import opened Wrappers
  import opened Bytes
  import opened RlpxPrimitives
  import opened Framing
  import opened Tcp

  /** One frame for each batch of written buffers. */
  function Joined(batches: seq<seq<bytes>>): (r: seq<bytes>)
    ensures |r| == |batches|
    ensures forall i :: 0 <= i < |r| ==> r[i] == Concat(batches[i])
  {
    seq(|batches|, i requires 0 <= i < |batches| => Concat(batches[i]))
  }

  lemma ConcatNone()
    ensures Concat<byte>([]) == []
  {
  }

  class RlpxStream {
    const egress: FrameState
    const tcpOut: Pipe

    var writeBuf: bytes
    var flushBuf: Option<bytes>
    var flushPos: nat

    ghost const start: Frames        // egress state at construction
    ghost var frames: seq<bytes>     // encrypted so far
    ghost var accepted: bytes        // bytes taken from callers
    ghost var batches: seq<seq<bytes>>   // the buffers written for each frame
    ghost var batch: seq<bytes>          // the buffers written since the last frame

    ghost function Unsent(): bytes
      reads `flushBuf, `flushPos
    {
      if flushBuf.Some? && flushPos <= |flushBuf.value| then flushBuf.value[flushPos..] else []
    }

    /** Each accepted byte is in exactly one encrypted frame or still in `writeBuf`, in order; a frame is
        what was written since the frame before was taken; and `wire` is those frames, each encrypted once. */
    ghost predicate Conserved(wire: bytes)
      reads `writeBuf, `frames, `accepted, `batches, `batch, egress
    {
      && accepted == Concat(frames) + writeBuf
      && frames == Joined(batches) && writeBuf == Concat(batch)
      && SendAll(egress.p, start, frames) == (egress.State(), wire)
    }

    /** The frames are in TCP or waiting in `flushBuf`. */
    ghost predicate Draining()
      reads `writeBuf, `flushBuf, `flushPos, `frames, `accepted, `batches, `batch, egress, tcpOut
    {
      && tcpOut.Valid()
      && (flushBuf.Some? ==> flushPos <= |flushBuf.value|)
      && Conserved(tcpOut.sent + Unsent())
    }

    /** Between calls a frame is pending exactly if some of it is unsent. */
    ghost predicate Valid()
      reads `writeBuf, `flushBuf, `flushPos, `frames, `accepted, `batches, `batch, egress, tcpOut
    {
      Draining() && (flushBuf.Some? ==> Unsent() != [])
    }

    constructor (egress: FrameState, tcpOut: Pipe)
      requires tcpOut.Valid() && tcpOut.sent == []
      ensures Valid() && this.egress == egress && this.tcpOut == tcpOut
      ensures start == egress.State() && frames == [] && accepted == [] && batches == [] && batch == []
      ensures writeBuf == [] && flushBuf.None?
    {
      this.egress, this.tcpOut := egress, tcpOut;
      writeBuf, flushBuf, flushPos := [], None, 0;
      start, frames, accepted, batches, batch := egress.State(), [], [], [], [];
      new;
      assert tcpOut.sent + Unsent() == [];
      assert Concat<byte>([]) + [] == [];
    }

    method PollWrite(buf: bytes) returns (r: Poll<nat>)
      requires Valid()
      modifies `writeBuf, `accepted, `batch
      ensures Valid()
      ensures r == Ready(|buf|) && accepted == old(accepted) + buf && batch == old(batch) + [buf]
      ensures writeBuf == old(writeBuf) + buf
    {
      hide SendAll, Concat, Joined;
      ConcatSnoc(batch, buf);
      assert Concat(frames) + (writeBuf + buf) == (Concat(frames) + writeBuf) + buf;
      writeBuf, accepted, batch := writeBuf + buf, accepted + buf, batch + [buf];
      r := Ready(|buf|);
    }

    /** Encrypts all of `writeBuf` into `flushBuf` as one frame. */
    method TakeFrame()
      requires Valid() && flushBuf.None?
      modifies `writeBuf, `flushBuf, `flushPos, `frames, `batches, `batch, egress
      ensures Valid() && flushBuf.Some? && writeBuf == []
      ensures frames == old(frames) + [old(writeBuf)] && batches == old(batches) + [old(batch)] && batch == []
      ensures |Unsent()| == OVERHEAD + Padded(|old(writeBuf)|)
    {
      hide SendAll, Concat, Encoded;
      EncodedSize(egress.p, egress.State(), writeBuf);
      assert Joined(batches + [batch]) == Joined(batches) + [Concat(batch)];
      SendSnoc(egress.p, start, frames, writeBuf);
      ConcatSnoc(frames, writeBuf);
      assert tcpOut.sent + Unsent() == tcpOut.sent;
      var data := writeBuf;
      var encrypted := egress.EncodeFrame(data);
      frames, batches, batch := frames + [data], batches + [batch], [];
      ConcatNone();
      writeBuf, flushBuf, flushPos := [], Some(encrypted), 0;
      assert Unsent() == encrypted;
      assert Concat(frames) + [] == Concat(frames);
    }

    /** One write to TCP from `flushBuf`; `None` if it made progress. */
    method WriteSome() returns (stop: Option<Poll<()>>)
      requires Draining() && flushBuf.Some? && flushPos < |flushBuf.value|
      modifies `flushPos, tcpOut
      ensures Draining() && flushPos <= |flushBuf.value| && tcpOut.received == old(tcpOut.received)
      ensures stop.Some? ==> !stop.value.Ready?
      ensures tcpOut.writeStops == Noted(old(tcpOut.writeStops), if stop.None? then None else StopOf(stop.value))
      ensures var n := Moved(Next(old(tcpOut.writeAnswers)), |old(Unsent())|);
              (stop.None? <==> n > 0) && flushPos == old(flushPos) + n
      ensures tcpOut.writeAnswers == Behind(old(tcpOut.writeAnswers))
    {
      hide Conserved;
      ghost var sent := tcpOut.sent;
      var poll := tcpOut.PollWrite(flushBuf.value[flushPos..]);
      match poll
      case Pending => return Some(Pending);
      case Failed(e) => return Some(Failed(e));
      case Ready(n) =>
        if n == 0 {
          assert tcpOut.sent == sent;
          return Some(Failed(WriteZero));
        }
        MoveAcross(sent, flushBuf.value, flushPos, n);
        flushPos := flushPos + n;
        return None;
    }

    /** Writes `flushBuf` to TCP without encrypting again. */
    method Drain() returns (r: Poll<()>)
      requires Valid() && flushBuf.Some?
      modifies `flushBuf, `flushPos, tcpOut
      ensures Valid() && tcpOut.received == old(tcpOut.received)
      ensures r.Ready? <==> flushBuf.None?
      ensures (|Unsent()|, tcpOut.writeAnswers) == Drained(|old(Unsent())|, old(tcpOut.writeAnswers))
      ensures tcpOut.writeStops == Noted(old(tcpOut.writeStops), StopOf(r))
    {
      hide Conserved;
      while |flushBuf.value| - flushPos != 0
        invariant Draining() && flushBuf.Some? && flushPos <= |flushBuf.value|
        invariant tcpOut.received == old(tcpOut.received) && tcpOut.writeStops == old(tcpOut.writeStops)
        invariant Drained(|Unsent()|, tcpOut.writeAnswers) == Drained(|old(Unsent())|, old(tcpOut.writeAnswers))
        decreases |flushBuf.value| - flushPos
      {
        var stop := WriteSome();
        if stop.Some? {
          return stop.value;
        }
      }
      assert Unsent() == [];
      flushBuf, flushPos := None, 0;
      r := Ready(());
    }

    /** Readiness means that TCP has every encrypted byte. It means that everything accepted is encrypted exactly
        when no frame was still being flushed on entry, or nothing had been written behind it. */
    method PollFlush() returns (r: Poll<()>)
      requires Valid()
      modifies `writeBuf, `flushBuf, `flushPos, `frames, `batches, `batch, egress, tcpOut
      ensures Valid() && tcpOut.received == old(tcpOut.received)
      ensures if old(flushBuf).None? && old(writeBuf) != []
              then frames == old(frames) + [old(writeBuf)] && batches == old(batches) + [old(batch)] && batch == []
                   && writeBuf == []
              else frames == old(frames) && batches == old(batches) && batch == old(batch)
                   && writeBuf == old(writeBuf)
      ensures r.Ready? ==> flushBuf.None? && Unsent() == []
      ensures tcpOut.writeStops == Noted(old(tcpOut.writeStops), StopOf(r))
      ensures r.Ready? ==> (writeBuf == [] <==> old(flushBuf).None? || old(writeBuf) == [])
      ensures var taken := old(flushBuf).None? && old(writeBuf) != [];
              var (left, answers) := Drained(if taken then OVERHEAD + Padded(|old(writeBuf)|) else |old(Unsent())|,
                                             old(tcpOut.writeAnswers));
              && |Unsent()| == left && tcpOut.writeAnswers == (if left == 0 then Behind(answers) else answers)
              && (r.Ready? <==> left == 0 && Next(answers).Moves?)
    {
      hide Conserved;
      if flushBuf.None? {
        if writeBuf == [] {
          r := tcpOut.PollFlush();
          return;
        }
        TakeFrame();
      }
      var drained := Drain();
      if !drained.Ready? {
        return drained;
      }
      r := tcpOut.PollFlush();
    }

    /** Once TCP has all encrypted bytes, a receiver that started in the writer's state gets the frames, in order,
        exactly if each of them is shorter than 2^24 bytes. `RunWriter` says when they are. */
    lemma ArrivesIff()
      requires Valid() && Unsent() == []
      ensures ReceiveAll(egress.p, start, tcpOut.sent, |frames|).1 == Success(frames) <==> AllShort(frames)
    {
      hide SendAll, ReceiveAll, Concat;
      LockstepIff(egress.p, start, frames, []);
      assert tcpOut.sent + [] == tcpOut.sent;
    }

    /** Then the receiver ends in the writer's state, having everything accepted but `writeBuf`. */
    lemma Arrives()
      requires Valid() && Unsent() == []
      requires AllShort(frames)
      ensures ReceiveAll(egress.p, start, tcpOut.sent, |frames|) == (egress.State(), Success(frames), [])
      ensures accepted == Concat(frames) + writeBuf
    {
      hide SendAll, ReceiveAll, Concat;
      Framing.Lockstep(egress.p, start, frames, []);
      assert tcpOut.sent + [] == tcpOut.sent;
    }
  }

  // ----- Every schedule of writes and flushes -------------------------------

  datatype Call = Write(buf: bytes) | Flush

  /** The writer as far as it follows from the calls and the answers of TCP: the frames taken, the bytes buffered, how
      much of the last frame is pending, and the answers to come. */
  datatype Progress = Progress(frames: seq<bytes>, buffered: bytes, pending: nat, answers: seq<Answer>) {
    function Called(c: Call): Progress {
      match c
      case Write(buf) => this.(buffered := buffered + buf)
      case Flush => if pending == 0 && buffered != [] then Taken().Flushed() else Flushed()
    }

    function Taken(): Progress {
      Progress(frames + [buffered], [], OVERHEAD + Padded(|buffered|), answers)
    }

    function Flushed(): Progress {
      var (left, rest) := Drained(pending, answers);
      this.(pending := left, answers := if left == 0 then Behind(rest) else rest)
    }
  }

  function After(schedule: seq<Call>, answers: seq<Answer>): Progress {
    if schedule == [] then Progress([], [], 0, answers)
    else After(schedule[..|schedule| - 1], answers).Called(schedule[|schedule| - 1])
  }

  /** Each flush that finds no frame pending finds fewer than 2^24 bytes buffered. */
  ghost predicate FlushesInTime(schedule: seq<Call>, answers: seq<Answer>) {
    forall i :: 0 <= i < |schedule| && schedule[i].Flush? ==>
      var found := After(schedule[..i], answers); found.pending == 0 ==> |found.buffered| < FRAME_LIMIT
  }

  function Written(schedule: seq<Call>): bytes {
    if schedule == [] then []
    else
      var last := schedule[|schedule| - 1];
      Written(schedule[..|schedule| - 1]) + if last.Write? then last.buf else []
  }

  lemma WrittenSnoc(schedule: seq<Call>, c: Call)
    ensures Written(schedule + [c]) == if c.Write? then Written(schedule) + c.buf else Written(schedule)
  {
    assert (schedule + [c])[..|schedule|] == schedule;
  }

  lemma AfterSnoc(schedule: seq<Call>, c: Call, answers: seq<Answer>)
    ensures After(schedule + [c], answers) == After(schedule, answers).Called(c)
  {
    assert (schedule + [c])[..|schedule|] == schedule;
  }

  lemma AllShortSnoc(frames: seq<bytes>, frame: bytes)
    ensures AllShort(frames + [frame]) <==> AllShort(frames) && |frame| < FRAME_LIMIT
  {
    assert forall i :: 0 <= i < |frames| ==> (frames + [frame])[i] == frames[i];
    assert (frames + [frame])[|frames|] == frame;
  }

  /** The next flush decides as much about the frames as about the schedule. */
  lemma InTimeSnoc(schedule: seq<Call>, c: Call, answers: seq<Answer>)
    ensures var found := After(schedule, answers);
            FlushesInTime(schedule + [c], answers)
            <==> FlushesInTime(schedule, answers)
                 && (c.Flush? && found.pending == 0 ==> |found.buffered| < FRAME_LIMIT)
  {
    hide After;
    var n, calls := |schedule|, schedule + [c];
    assert forall i :: 0 <= i < n ==> calls[..i] == schedule[..i] && calls[i] == schedule[i];
    assert calls[..n] == schedule && calls[n] == c;
  }

  /** The frames are short exactly if the flushes are in time. */
  lemma {:induction false} ShortIffInTime(schedule: seq<Call>, answers: seq<Answer>)
    ensures AllShort(After(schedule, answers).frames) <==> FlushesInTime(schedule, answers)
    decreases schedule
  {
    if schedule == [] {
    } else {
      hide Drained, FlushesInTime, AllShort;
      var front, c := schedule[..|schedule| - 1], schedule[|schedule| - 1];
      assert schedule == front + [c];
      ShortIffInTime(front, answers);
      InTimeSnoc(front, c, answers);
      var found := After(front, answers);
      AllShortSnoc(found.frames, found.buffered);
    }
  }

  /** The writer is where the calls and the answers have brought it. */
  ghost predicate Shows(s: RlpxStream, x: Progress)
    reads s, s.tcpOut
  {
    && s.frames == x.frames && s.writeBuf == x.buffered
    && |s.Unsent()| == x.pending && s.tcpOut.writeAnswers == x.answers
  }

  lemma Conservation(s: RlpxStream)
    requires s.Valid()
    ensures s.accepted == Concat(s.frames) + s.writeBuf
  {
  }

  lemma Begins(s: RlpxStream)
    requires s.frames == [] && s.writeBuf == [] && s.flushBuf.None?
    ensures Shows(s, After([], s.tcpOut.writeAnswers)) && Written([]) == []
  {
  }

  lemma ShownFrames(s: RlpxStream, x: Progress)
    requires Shows(s, x)
    ensures s.frames == x.frames
  {
  }

  method MakeCall(s: RlpxStream, c: Call, ghost x: Progress)
    requires s.Valid() && Shows(s, x)
    modifies s, s.egress, s.tcpOut
    ensures s.Valid() && Shows(s, x.Called(c))
    ensures s.accepted == if c.Write? then old(s.accepted) + c.buf else old(s.accepted)
  {
    hide s.Conserved, Drained;
    assert s.flushBuf.None? <==> x.pending == 0;
    match c
    case Write(buf) =>
      var _ := s.PollWrite(buf);
    case Flush =>
      var _ := s.PollFlush();
  }

  /** Over every schedule of writes and flushes and all answers of TCP: everything written is in a frame or still
      buffered, in order, and once TCP has all frames, they arrive exactly if each flush that found no frame pending
      found fewer than 2^24 bytes. */
  method RunWriter(s: RlpxStream, schedule: seq<Call>)
    requires s.Valid() && s.frames == [] && s.writeBuf == [] && s.accepted == [] && s.flushBuf.None?
    modifies s, s.egress, s.tcpOut
    ensures s.Valid() && Shows(s, After(schedule, old(s.tcpOut.writeAnswers)))
    ensures Written(schedule) == s.accepted == Concat(s.frames) + s.writeBuf
    ensures s.Unsent() == [] ==>
              (ReceiveAll(s.egress.p, s.start, s.tcpOut.sent, |s.frames|).1 == Success(s.frames)
               <==> FlushesInTime(schedule, old(s.tcpOut.writeAnswers)))
  {
    hide s.Valid, s.Conserved, Concat, SendAll, ReceiveAll, AllShort, FlushesInTime, Progress.Called, Shows, After,
      Written;
    ghost var answers := s.tcpOut.writeAnswers;
    Begins(s);
    for i := 0 to |schedule|
      invariant s.Valid() && Shows(s, After(schedule[..i], answers))
      invariant Written(schedule[..i]) == s.accepted
    {
      ghost var before := schedule[..i];
      MakeCall(s, schedule[i], After(before, answers));
      AfterSnoc(before, schedule[i], answers);
      WrittenSnoc(before, schedule[i]);
      assert schedule[..i + 1] == before + [schedule[i]];
    }
    assert schedule[..|schedule|] == schedule;
    Conservation(s);
    ShortIffInTime(schedule, answers);
    ShownFrames(s, After(schedule, answers));
    if s.Unsent() == [] {
      s.ArrivesIff();
    }
  }

  // ----- A schedule whose second frame is too long --------------------------

  function Stalling(w: bytes): seq<Call> {
    [Write(w), Flush, Write(w), Flush, Write(w), Flush, Flush]
  }

  /** TCP is not ready for two flushes, and then takes whatever it is given. */
  const STALL: seq<Answer> := [NotReady, NotReady, Moves(0x200_0000), Moves(0), Moves(0x400_0000), Moves(0)]

  lemma StartsIdle(answers: seq<Answer>)
    ensures After([], answers) == Progress([], [], 0, answers)
  {
  }

  lemma Continue(schedule: seq<Call>, i: nat, answers: seq<Answer>)
    requires i < |schedule|
    ensures After(schedule[..i + 1], answers) == After(schedule[..i], answers).Called(schedule[i])
    ensures i == 0 ==> schedule[..i] == []
  {
    assert schedule[..i + 1] == schedule[..i] + [schedule[i]];
    AfterSnoc(schedule[..i], schedule[i], answers);
  }

  /** A flush stops at once where TCP is not ready, and goes through where TCP takes all that is pending. */
  lemma FlushAtOnce(x: Progress)
    requires x.answers != [] && (x.pending > 0 || x.buffered != [])
    ensures var y := if x.pending == 0 then x.Taken() else x;
            && (x.answers[0].NotReady? ==> x.Called(Flush) == y.(answers := x.answers[1..]))
            && (|x.answers| >= 2 && x.answers[0].Moves? && x.answers[0].n >= y.pending ==>
                  x.Called(Flush) == y.(pending := 0, answers := x.answers[2..]))
  {
    hide Padded;
    var y := if x.pending == 0 then x.Taken() else x;
    assert Drained(0, x.answers[1..]) == (0, x.answers[1..]);
  }

  lemma WriteThenFlush(all: seq<Call>, i: nat, w: bytes, x: Progress, answers: seq<Answer>)
    requires i + 1 < |all| && all[i] == Write(w) && all[i + 1] == Flush && w != []
    requires After(all[..i], answers) == x && x.answers != []
    ensures var y := x.(buffered := x.buffered + w);
            var z := if x.pending == 0 then y.Taken() else y;
            && (x.answers[0].NotReady? ==> After(all[..i + 2], answers) == z.(answers := x.answers[1..]))
            && (|x.answers| >= 2 && x.answers[0].Moves? && x.answers[0].n >= z.pending ==>
                  After(all[..i + 2], answers) == z.(pending := 0, answers := x.answers[2..]))
  {
    hide After, Progress.Flushed, Padded;
    Continue(all, i, answers);
    Continue(all, i + 1, answers);
    FlushAtOnce(x.(buffered := x.buffered + w));
  }

  /** One frame is taken at the first flush, and the next one only at the fourth. */
  lemma StallingFrames(w: bytes)
    requires FRAME_LIMIT / 2 <= |w| < FRAME_LIMIT
    ensures After(Stalling(w), STALL) == Progress([w, w + w], [], 0, [])
    ensures !FlushesInTime(Stalling(w), STALL)
  {
    hide After, Progress.Called, Padded;
    var all, n := Stalling(w), OVERHEAD + Padded(|w|);
    assert STALL[1..][1..] == STALL[2..] && STALL[2..][2..] == STALL[4..] && STALL[4..][2..] == [];
    assert [] + w == w && [] + [w] == [w];
    StartsIdle(STALL);
    WriteThenFlush(all, 0, w, Progress([], [], 0, STALL), STALL);
    WriteThenFlush(all, 2, w, Progress([w], [], n, STALL[1..]), STALL);
    WriteThenFlush(all, 4, w, Progress([w], w, n, STALL[2..]), STALL);
    var x := Progress([w], w + w, 0, STALL[4..]);
    assert After(all[..6], STALL) == x;
    FlushAtOnce(x);
    Continue(all, 6, STALL);
    assert [w] + [w + w] == [w, w + w] && all[..7] == all;
  }

  /** It is not enough that fewer than 2^24 bytes lie between any two flushes: here TCP stalls until the third flush,
      which then finds a frame pending, so the second frame holds what was written in two intervals, and does not
      arrive. */
  method StalledFlushes(s: RlpxStream, w: bytes)
    requires s.Valid() && s.frames == [] && s.writeBuf == [] && s.accepted == [] && s.flushBuf.None?
    requires s.tcpOut.writeAnswers == STALL && FRAME_LIMIT / 2 <= |w| < FRAME_LIMIT
    modifies s, s.egress, s.tcpOut
    ensures s.Valid() && s.Unsent() == [] && s.accepted == Written(Stalling(w)) && s.frames == [w, w + w]
    ensures ReceiveAll(s.egress.p, s.start, s.tcpOut.sent, |s.frames|).1 != Success(s.frames)
  {
    hide s.Valid, After, FlushesInTime, ReceiveAll, Written;
    StallingFrames(w);
    RunWriter(s, Stalling(w));
  }
}
