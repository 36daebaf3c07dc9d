/** The read side of the poll-driven byte stream over an RLPx connection. */
module RlpxReader {
  import opened Wrappers
  import opened Bytes
  import opened RlpxPrimitives
  import opened Framing
  import opened Tcp

  /** How many bytes the frames take on the wire. */
  function WireSize(frames: seq<bytes>): nat {
    if frames == [] then 0
    else WireSize(frames[..|frames| - 1]) + OVERHEAD + Padded(|frames[|frames| - 1]|)
  }

  lemma WireSizeSnoc(frames: seq<bytes>, data: bytes)
    ensures WireSize(frames + [data]) == WireSize(frames) + OVERHEAD + Padded(|data|)
  {
    assert (frames + [data])[..|frames|] == frames;
  }

  lemma {:induction false} SentSize(p: Primitives, s: Frames, frames: seq<bytes>)
    ensures |SendAll(p, s, frames).1| == WireSize(frames)
    decreases frames
  {
    if frames == [] {
    } else {
      hide SendAll, Encoded;
      var front, last := frames[..|frames| - 1], frames[|frames| - 1];
      assert frames == front + [last];
      SentSize(p, s, front);
      SendSnoc(p, s, front, last);
      EncodedSize(p, SendAll(p, s, front).0, last);
    }
  }

  // ----- Receiving in pieces ------------------------------------------------

  /** A frame that has been received does not depend on what follows it. */
  lemma ReceivedMore(p: Primitives, s: Frames, input: bytes, more: bytes)
    requires Received(p, s, input).1.Success?
    ensures var (t, data, rest) := Received(p, s, input);
            Received(p, s, input + more) == (t, data, rest + more)
  {
    hide HeaderDecoded, DataDecoded, Received;
    if |input| < HEADER_LEN + MAC_LEN {
      ReceivedShort(p, s, input);
    } else {
      var header, body := input[..HEADER_LEN + MAC_LEN], input[HEADER_LEN + MAC_LEN..];
      assert input == header + body && input + more == header + (body + more);
      ReceivedParts(p, s, header, body);
      ReceivedParts(p, s, header, body + more);
      var size := HeaderDecoded(p, s, header).1;
      if size.Success? {
        var n := Padded(size.value) + MAC_LEN;
        if |body| >= n {
          assert (body + more)[..n] == body[..n] && (body + more)[n..] == body[n..] + more;
        }
      }
    }
  }

  /** One more frame behind those that make up the input. */
  lemma {:induction false} ReceiveSnoc(p: Primitives, s: Frames, input: bytes, frames: seq<bytes>, more: bytes)
    requires ReceiveAll(p, s, input, |frames|).1 == Success(frames) && ReceiveAll(p, s, input, |frames|).2 == []
    requires Received(p, ReceiveAll(p, s, input, |frames|).0, more).1.Success?
    ensures var (t, data, rest) := Received(p, ReceiveAll(p, s, input, |frames|).0, more);
            ReceiveAll(p, s, input + more, |frames| + 1) == (t, Success(frames + [data.value]), rest)
    decreases |frames|
  {
    hide Received;
    if frames == [] {
      assert input + more == more;
      var (t, data, rest) := Received(p, s, more);
      assert ReceiveAll(p, t, rest, 0) == (t, Success([]), rest);
      assert [data.value] + [] == [] + [data.value];
    } else {
      var (t, data, rest) := Received(p, s, input);
      ReceivedMore(p, s, input, more);
      var (u, tail, left) := ReceiveAll(p, t, rest, |frames| - 1);
      assert frames[1..] == tail.value;
      ReceiveSnoc(p, t, rest, frames[1..], more);
      var last := Received(p, u, more).1.value;
      assert [frames[0]] + (frames[1..] + [last]) == frames + [last];
    }
  }

  /** On the wire of an honest sender, what has been received is the next frame, or nothing yet. */
  lemma HonestFrame(p: Primitives, s: Frames, frames: seq<bytes>, part: bytes)
    requires AllShort(frames) && part <= SendAll(p, s, frames).1
    ensures var r := Received(p, s, part);
            if frames == [] then r.1 == Failure(StreamEnded)
            else
              var (t, wire) := Encoded(p, s, frames[0]);
              r.1 == Failure(StreamEnded) || (wire <= part && r == (t, Success(frames[0]), part[|wire|..]))
  {
    hide Encoded, Received;
    if frames == [] {
      assert part == [];
      ReceivedShort(p, s, part);
    } else {
      var (t, wire) := Encoded(p, s, frames[0]);
      var rest := SendAll(p, t, frames[1..]).1;
      assert part <= wire + rest;
      if |part| < |wire| {
        assert part <= wire;
        PartialFrame(p, s, frames[0], part);
      } else {
        assert part == wire + part[|wire|..];
        FrameLockstep(p, s, frames[0], part[|wire|..]);
      }
    }
  }

  lemma PrefixBehind(a: bytes, b: bytes, c: bytes)
    requires a + b <= a + c
    ensures b <= c
  {
    assert (a + b)[|a|..] == b && (a + c)[|a|..] == c;
  }

  /** The frames that make up a part of an honest wire are the first ones sent, and the receiver has kept up. */
  lemma {:induction false} HonestPrefix(p: Primitives, s: Frames, sent: seq<bytes>, part: bytes, frames: seq<bytes>)
    requires AllShort(sent) && part <= SendAll(p, s, sent).1
    requires ReceiveAll(p, s, part, |frames|).1 == Success(frames) && ReceiveAll(p, s, part, |frames|).2 == []
    ensures frames <= sent && SendAll(p, s, frames) == (ReceiveAll(p, s, part, |frames|).0, part)
    ensures SendAll(p, s, sent).1 == part + SendAll(p, ReceiveAll(p, s, part, |frames|).0, sent[|frames|..]).1
    decreases |frames|
  {
    hide Encoded, Received;
    HonestFrame(p, s, sent, part);
    if frames == [] {
      assert sent[0..] == sent;
    } else {
      var (t, wire) := Encoded(p, s, sent[0]);
      var rest := part[|wire|..];
      assert part == wire + rest;
      var (u, tail, _) := ReceiveAll(p, t, rest, |frames| - 1);
      assert [sent[0]] + tail.value == frames && frames[1..] == tail.value;
      PrefixBehind(wire, rest, SendAll(p, t, sent[1..]).1);
      HonestPrefix(p, t, sent[1..], rest, frames[1..]);
      assert sent[1..][|frames[1..]|..] == sent[|frames|..];
      var more := SendAll(p, u, sent[|frames|..]).1;
      assert (wire + rest) + more == wire + (rest + more);
    }
  }

  lemma HeaderFailure(p: Primitives, s: Frames, wire: bytes)
    requires |wire| == HEADER_LEN + MAC_LEN
    ensures HeaderDecoded(p, s, wire).1 != Failure(StreamEnded)
  {
  }

  lemma DataSize(p: Primitives, s: Frames, wire: bytes, frameSize: nat)
    requires |wire| == Padded(frameSize) + MAC_LEN
    ensures var r := DataDecoded(p, s, wire, frameSize).1;
            r != Failure(StreamEnded) && (r.Success? ==> |r.value| == frameSize)
  {
  }

  // ----- How much a poll takes ----------------------------------------------

  /** How many of `n` bytes `read_exact` gets of `left` ones in flight, and the answers of TCP behind. */
  function PartRead(left: nat, answers: seq<Answer>, n: nat): (r: (nat, seq<Answer>))
    ensures r.0 <= n && r.0 <= left
    decreases n
  {
    if n == 0 then (0, answers)
    else
      var m := Moved(Next(answers), Min(n, left));
      if m == 0 then (0, Behind(answers))
      else
        var (more, rest) := PartRead(left - m, Behind(answers), n - m);
        (m + more, rest)
  }

  lemma PartReadStep(left: nat, answers: seq<Answer>, n: nat)
    ensures PartRead(left, answers, n)
         == if n == 0 then (0, answers)
            else
              var m := Moved(Next(answers), Min(n, left));
              if m == 0 then (0, Behind(answers))
              else
                var (more, rest) := PartRead(left - m, Behind(answers), n - m);
                (m + more, rest)
  {
  }

  /** How many bytes of a frame with `size` bytes of contents a poll gets. */
  function FrameRead(left: nat, answers: seq<Answer>, size: nat): (r: (nat, seq<Answer>))
    ensures r.0 <= OVERHEAD + Padded(size) && r.0 <= left
  {
    var header := HEADER_LEN + MAC_LEN;
    var (n, rest) := PartRead(left, answers, header);
    if n < header then (n, rest)
    else
      var (m, behind) := PartRead(left - header, rest, Padded(size) + MAC_LEN);
      (header + m, behind)
  }

  /** The same on any bytes, whose header tells the size. */
  function FrameTaken(p: Primitives, s: Frames, inFlight: bytes, answers: seq<Answer>): (nat, seq<Answer>) {
    var header := HEADER_LEN + MAC_LEN;
    var (n, rest) := PartRead(|inFlight|, answers, header);
    if n < header then (n, rest)
    else
      var size := HeaderDecoded(p, s, inFlight[..header]).1;
      if size.Failure? then (header, rest) else FrameRead(|inFlight|, answers, size.value)
  }

  // ----- The reader ---------------------------------------------------------

  /** `read_exact`: what it has read when TCP is not ready goes with it. */
  method ReadPart(tcpIn: Pipe, n: nat) returns (r: Poll<bytes>, ghost taken: bytes)
    requires tcpIn.Valid()
    modifies tcpIn
    ensures tcpIn.Valid() && tcpIn.sent == old(tcpIn.sent) && tcpIn.received == old(tcpIn.received) + taken
    ensures if r.Ready? then r.value == taken && |taken| == n
            else |taken| < n && r in {Pending, Failed(Io), Failed(UnexpectedEof)}
    ensures (|taken|, tcpIn.readAnswers) == PartRead(|old(tcpIn.inFlight)|, old(tcpIn.readAnswers), n)
    ensures |tcpIn.inFlight| == |old(tcpIn.inFlight)| - |taken|
  {
    hide PartRead;
    ghost var left, answers := |tcpIn.inFlight|, tcpIn.readAnswers;
    var got: bytes := [];
    while |got| < n
      invariant tcpIn.Valid() && tcpIn.sent == old(tcpIn.sent) && |got| <= n
      invariant tcpIn.received == old(tcpIn.received) + got && |tcpIn.inFlight| == left - |got|
      invariant var (m, rest) := PartRead(|tcpIn.inFlight|, tcpIn.readAnswers, n - |got|);
                PartRead(left, answers, n) == (|got| + m, rest)
      decreases n - |got|
    {
      PartReadStep(|tcpIn.inFlight|, tcpIn.readAnswers, n - |got|);
      var poll := tcpIn.PollRead(n - |got|);
      match poll
      case Pending => return Pending, got;
      case Failed(e) => return Failed(e), got;
      case Ready(data) =>
        if data == [] {
          return Failed(UnexpectedEof), got;
        }
        got := got + data;
    }
    PartReadStep(|tcpIn.inFlight|, tcpIn.readAnswers, 0);
    return Ready(got), got;
  }

  /** How the outcome of a poll relates to that of the blocking reader on the bytes it took: the poll waits or fails
      where the blocking reader runs out of bytes. */
  ghost predicate Agrees(r: Poll<bytes>, after: Frames, blocking: (Frames, Result<bytes, FrameError>, bytes)) {
    match r
    case Ready(data) => blocking == (after, Success(data), [])
    case Pending => blocking.1 == Failure(StreamEnded)
    case Failed(e) =>
      if e == Authentication then blocking.1.Failure? && blocking.1.error != StreamEnded
      else blocking.1 == Failure(StreamEnded)
  }

  /** The same for the body of a frame, behind a header that announces `size` bytes. */
  ghost predicate BodyAgrees(p: Primitives, s: Frames, taken: bytes, size: nat, r: Poll<bytes>, after: Frames) {
    if r.Ready? || r == Failed(Authentication) then
      && |taken| == Padded(size) + MAC_LEN
      && var (t, data) := DataDecoded(p, s, taken, size);
         if r.Ready? then t == after && data == Success(r.value) && |r.value| == size
         else data.Failure? && data.error != StreamEnded
    else |taken| < Padded(size) + MAC_LEN
  }

  lemma HeaderAgrees(p: Primitives, s: Frames, header: bytes, after: Frames)
    requires |header| == HEADER_LEN + MAC_LEN && HeaderDecoded(p, s, header).1.Failure?
    ensures Agrees(Failed(Authentication), after, Received(p, s, header))
  {
    hide Received, HeaderDecoded;
    HeaderFailure(p, s, header);
    ReceivedParts(p, s, header, []);
    assert header + [] == header;
  }

  lemma FrameAgrees(p: Primitives, s: Frames, header: bytes, body: bytes, r: Poll<bytes>, after: Frames)
    requires |header| == HEADER_LEN + MAC_LEN && HeaderDecoded(p, s, header).1.Success?
    requires var (s1, size) := HeaderDecoded(p, s, header); BodyAgrees(p, s1, body, size.value, r, after)
    ensures Agrees(r, after, Received(p, s, header + body))
    ensures r.Ready? ==> |header + body| == OVERHEAD + Padded(|r.value|)
  {
    hide Received, HeaderDecoded, DataDecoded;
    ReceivedParts(p, s, header, body);
    assert body[..|body|] == body && body[|body|..] == [];
  }

  method PollBody(ingress: FrameState, tcpIn: Pipe, size: nat) returns (r: Poll<bytes>, ghost taken: bytes)
    requires tcpIn.Valid()
    modifies ingress, tcpIn
    ensures tcpIn.Valid() && tcpIn.sent == old(tcpIn.sent) && tcpIn.received == old(tcpIn.received) + taken
    ensures BodyAgrees(ingress.p, old(ingress.State()), taken, size, r, ingress.State())
    ensures (|taken|, tcpIn.readAnswers)
         == PartRead(|old(tcpIn.inFlight)|, old(tcpIn.readAnswers), Padded(size) + MAC_LEN)
  {
    hide DataDecoded;
    var body;
    body, taken := ReadPart(tcpIn, Padded(size) + MAC_LEN);
    if !body.Ready? {
      return body, taken;
    }
    DataSize(ingress.p, ingress.State(), taken, size);
    var data := ingress.DecodeFrameData(body.value, size);
    r := if data.Success? then Ready(data.value) else Failed(Authentication);
  }

  lemma Associative(a: bytes, b: bytes, c: bytes)
    ensures (a + b) + c == a + (b + c)
  {
  }

  lemma FirstTaken(received: bytes, taken: bytes, before: bytes, after: bytes)
    requires received + before == received + taken + after
    ensures before == taken + after && before[..|taken|] == taken
  {
    assert (received + before)[|received|..] == before;
    assert (received + taken + after)[|received|..] == taken + after;
  }

  /** The header of a frame: its size, or the outcome of a poll that ends with it. */
  method PollHeader(ingress: FrameState, tcpIn: Pipe) returns (r: Result<nat, Poll<bytes>>, ghost taken: bytes)
    requires tcpIn.Valid()
    modifies ingress, tcpIn
    ensures tcpIn.Valid() && tcpIn.sent == old(tcpIn.sent) && tcpIn.received == old(tcpIn.received) + taken
    ensures |tcpIn.inFlight| == |old(tcpIn.inFlight)| - |taken| && taken == old(tcpIn.inFlight)[..|taken|]
    ensures if r.Success? then |taken| == HEADER_LEN + MAC_LEN
            else !r.error.Ready? && Agrees(r.error, ingress.State(), Received(ingress.p, old(ingress.State()), taken))
    ensures |taken| <= HEADER_LEN + MAC_LEN
    ensures |taken| < HEADER_LEN + MAC_LEN ==> ingress.State() == old(ingress.State())
    ensures |taken| == HEADER_LEN + MAC_LEN ==>
              var (after, size) := HeaderDecoded(ingress.p, old(ingress.State()), taken);
              after == ingress.State() && r.Success? == size.Success? && (size.Success? ==> r.value == size.value)
    ensures (|taken|, tcpIn.readAnswers)
         == PartRead(|old(tcpIn.inFlight)|, old(tcpIn.readAnswers), HEADER_LEN + MAC_LEN)
  {
    hide Received, HeaderDecoded, PartRead;
    ghost var p, s, received, inFlight := ingress.p, ingress.State(), tcpIn.received, tcpIn.inFlight;
    var header;
    header, taken := ReadPart(tcpIn, HEADER_LEN + MAC_LEN);
    FirstTaken(received, taken, inFlight, tcpIn.inFlight);
    if !header.Ready? {
      ReceivedShort(p, s, taken);
      return Failure(header), taken;
    }
    var size := ingress.DecodeFrameHeader(header.value);
    if size.Failure? {
      HeaderAgrees(p, s, taken, ingress.State());
      return Failure(Failed(Authentication)), taken;
    }
    r := Success(size.value);
  }

  lemma TakenHeader(p: Primitives, s: Frames, inFlight: bytes, answers: seq<Answer>, taken: bytes, rest: seq<Answer>)
    requires PartRead(|inFlight|, answers, HEADER_LEN + MAC_LEN) == (|taken|, rest)
    requires taken == inFlight[..|taken|]
    requires |taken| == HEADER_LEN + MAC_LEN ==> HeaderDecoded(p, s, taken).1.Failure?
    ensures FrameTaken(p, s, inFlight, answers) == (|taken|, rest)
  {
    hide HeaderDecoded, PartRead;
  }

  lemma TakenBoth(p: Primitives, s: Frames, inFlight: bytes, answers: seq<Answer>, header: bytes, rest: seq<Answer>,
      body: bytes, behind: seq<Answer>)
    requires |header| == HEADER_LEN + MAC_LEN <= |inFlight| && header == inFlight[..|header|]
    requires HeaderDecoded(p, s, header).1.Success?
    requires PartRead(|inFlight|, answers, |header|) == (|header|, rest)
    requires var n := Padded(HeaderDecoded(p, s, header).1.value) + MAC_LEN;
             PartRead(|inFlight| - |header|, rest, n) == (|body|, behind)
    ensures FrameTaken(p, s, inFlight, answers) == (|header + body|, behind)
  {
    hide HeaderDecoded, PartRead;
  }

  /** One poll of `recv_frame`. */
  method PollFrame(ingress: FrameState, tcpIn: Pipe) returns (r: Poll<bytes>, ghost taken: bytes)
    requires tcpIn.Valid()
    modifies ingress, tcpIn
    ensures tcpIn.Valid() && tcpIn.sent == old(tcpIn.sent) && tcpIn.received == old(tcpIn.received) + taken
    ensures Agrees(r, ingress.State(), Received(ingress.p, old(ingress.State()), taken))
    ensures r.Ready? ==> |taken| == OVERHEAD + Padded(|r.value|)
    ensures |taken| < HEADER_LEN + MAC_LEN ==> ingress.State() == old(ingress.State())
    ensures (|taken|, tcpIn.readAnswers)
         == FrameTaken(ingress.p, old(ingress.State()), old(tcpIn.inFlight), old(tcpIn.readAnswers))
  {
    hide Received, HeaderDecoded, BodyAgrees, Agrees, PartRead, FrameTaken, Padded, tcpIn.Valid;
    ghost var p, s, received := ingress.p, ingress.State(), tcpIn.received;
    ghost var inFlight, answers := tcpIn.inFlight, tcpIn.readAnswers;
    var size, first := PollHeader(ingress, tcpIn);
    ghost var rest := tcpIn.readAnswers;
    if size.Failure? {
      TakenHeader(p, s, inFlight, answers, first, rest);
      return size.error, first;
    }
    ghost var second;
    r, second := PollBody(ingress, tcpIn, size.value);
    taken := first + second;
    TakenBoth(p, s, inFlight, answers, first, rest, second, tcpIn.readAnswers);
    FrameAgrees(p, s, first, second, r, ingress.State());
    Associative(received, first, second);
  }

  lemma ReadyAgrees(data: bytes, after: Frames, blocking: (Frames, Result<bytes, FrameError>, bytes))
    requires Agrees(Ready(data), after, blocking)
    ensures blocking == (after, Success(data), [])
  {
  }

  class RlpxReader {
    const ingress: FrameState
    const tcpIn: Pipe

    var readBuf: bytes
    var readPos: nat

    ghost const start: Frames        // ingress state at construction
    ghost var frames: seq<bytes>     // received so far
    ghost var delivered: bytes       // bytes returned to callers
    ghost var lost: nat              // bytes taken from TCP by polls that ended without a frame

    ghost function Unread(): bytes
      reads `readBuf, `readPos
    {
      if readPos <= |readBuf| then readBuf[readPos..] else []
    }

    /** Each byte taken from TCP is in a received frame or lost. As long as none is lost, the reader has done what the
        blocking reader does with the same bytes. */
    ghost predicate Accounted()
      reads `frames, `lost, ingress, tcpIn`received
    {
      && |tcpIn.received| == WireSize(frames) + lost
      && (lost == 0 ==>
            ReceiveAll(ingress.p, start, tcpIn.received, |frames|) == (ingress.State(), Success(frames), []))
    }

    ghost predicate Valid()
      reads this, ingress, tcpIn
    {
      tcpIn.Valid() && readPos <= |readBuf| && Accounted() && Concat(frames) == delivered + Unread()
    }

    constructor (ingress: FrameState, tcpIn: Pipe)
      requires tcpIn.Valid() && tcpIn.received == []
      ensures Valid() && this.ingress == ingress && this.tcpIn == tcpIn
      ensures start == ingress.State() && frames == [] && delivered == [] && lost == 0
    {
      this.ingress, this.tcpIn := ingress, tcpIn;
      readBuf, readPos := [], 0;
      start, frames, delivered, lost := ingress.State(), [], [], 0;
    }

    /** Serves up to `cap` buffered bytes. */
    method Serve(cap: nat) returns (data: bytes)
      requires Valid()
      modifies `readPos, `delivered
      ensures Valid()
      ensures data == old(Unread())[..Min(|old(Unread())|, cap)] && delivered == old(delivered) + data
      ensures |Unread()| == |old(Unread())| - |data|
    {
      hide Accounted, Concat;
      var available := readBuf[readPos..];
      data := available[..Min(|available|, cap)];
      readPos := readPos + |data|;
      delivered := delivered + data;
      assert Unread() == available[|data|..];
      assert delivered + Unread() == old(delivered) + (data + available[|data|..]);
    }

    /** Takes note of a new frame and serves from it. */
    method Accept(m: bytes, cap: nat) returns (data: bytes)
      requires tcpIn.Valid() && Concat(frames) == delivered
      requires |tcpIn.received| == WireSize(frames + [m]) + lost
      requires lost == 0 ==>
                 ReceiveAll(ingress.p, start, tcpIn.received, |frames| + 1)
                 == (ingress.State(), Success(frames + [m]), [])
      modifies `readBuf, `readPos, `frames, `delivered
      ensures Valid() && frames == old(frames) + [m]
      ensures data == m[..Min(|m|, cap)] && delivered == old(delivered) + data
      ensures |Unread()| == |m| - |data|
    {
      hide ReceiveAll, Concat, WireSize;
      ConcatSnoc(frames, m);
      frames, readBuf, readPos := frames + [m], m, 0;
      assert Unread() == m;
      data := Serve(cap);
    }

    /** Polls a new receive future, which is dropped with what it has read if it does not end with a frame. */
    method Receive(cap: nat) returns (r: Poll<bytes>, ghost taken: bytes)
      requires Valid() && Unread() == []
      modifies this, ingress, tcpIn
      ensures Valid() && tcpIn.sent == old(tcpIn.sent) && tcpIn.received == old(tcpIn.received) + taken
      ensures delivered == old(delivered) + (if r.Ready? then r.value else [])
      ensures if r.Ready?
              then
                && |frames| == |old(frames)| + 1 && old(frames) <= frames && lost == old(lost)
                && var m := frames[|old(frames)|]; r.value == m[..Min(|m|, cap)] && |Unread()| == |m| - |r.value|
              else
                frames == old(frames) && Unread() == [] && lost == old(lost) + |taken|
      ensures Agrees(if r.Ready? then Ready(frames[|old(frames)|]) else r, ingress.State(),
                     Received(ingress.p, old(ingress.State()), taken))
      ensures (|taken|, tcpIn.readAnswers)
           == FrameTaken(ingress.p, old(ingress.State()), old(tcpIn.inFlight), old(tcpIn.readAnswers))
    {
      hide ReceiveAll, Received, FrameTaken, Agrees, Concat, WireSize, Padded;
      ghost var received := tcpIn.received;
      assert delivered + [] == delivered;
      var frame;
      frame, taken := PollFrame(ingress, tcpIn);
      if !frame.Ready? {
        lost := lost + |taken|;
        assert taken == [] ==> received + taken == received;
        return frame, taken;
      }
      ReadyAgrees(frame.value, ingress.State(), Received(ingress.p, old(ingress.State()), taken));
      WireSizeSnoc(frames, frame.value);
      if lost == 0 {
        ReceiveSnoc(ingress.p, start, received, frames, taken);
      }
      var data := Accept(frame.value, cap);
      r := Ready(data);
    }

    /** Serves what is buffered, or else receives: a poll that ends without a frame loses what it has read of one. */
    method PollRead(cap: nat) returns (r: Poll<bytes>, ghost taken: bytes)
      requires Valid()
      modifies this, ingress, tcpIn
      ensures Valid() && tcpIn.sent == old(tcpIn.sent) && tcpIn.received == old(tcpIn.received) + taken
      ensures delivered == old(delivered) + (if r.Ready? then r.value else [])
      ensures old(Unread()) != [] ==>
                && r == Ready(old(Unread())[..Min(|old(Unread())|, cap)]) && taken == []
                && frames == old(frames) && lost == old(lost) && |Unread()| == |old(Unread())| - |r.value|
                && tcpIn.inFlight == old(tcpIn.inFlight) && tcpIn.readAnswers == old(tcpIn.readAnswers)
      ensures old(Unread()) == [] ==>
                if r.Ready?
                then
                  && |frames| == |old(frames)| + 1 && old(frames) <= frames && lost == old(lost)
                  && var m := frames[|old(frames)|]; r.value == m[..Min(|m|, cap)] && |Unread()| == |m| - |r.value|
                else
                  frames == old(frames) && Unread() == [] && lost == old(lost) + |taken|
      ensures old(Unread()) == [] ==>
                Agrees(if r.Ready? then Ready(frames[|old(frames)|]) else r, ingress.State(),
                       Received(ingress.p, old(ingress.State()), taken))
      ensures old(Unread()) == [] ==>
                (|taken|, tcpIn.readAnswers)
                == FrameTaken(ingress.p, old(ingress.State()), old(tcpIn.inFlight), old(tcpIn.readAnswers))
    {
      hide ReceiveAll, Received, FrameTaken, Agrees, Concat, WireSize, Accounted;
      if readPos < |readBuf| {
        var data := Serve(cap);
        assert tcpIn.received + [] == tcpIn.received;
        return Ready(data), [];
      }
      r, taken := Receive(cap);
    }
  }

  // ----- Every schedule of reads --------------------------------------------

  /** A reader of an honest wire as far as it follows from the frames sent and the answers of TCP: how many frames it
      has, how much of the last one is unread, what TCP still has and will answer, and whether a poll ended within a
      frame. What follows such a poll is left open. */
  datatype Progress = Progress(received: nat, unread: nat, left: nat, answers: seq<Answer>, cut: bool) {
    function Polled(all: seq<bytes>, cap: nat): Progress {
      if cut then this
      else if unread > 0 then this.(unread := unread - Min(unread, cap))
      else
        var size := if received < |all| then |all[received]| else 0;
        var (n, rest) := FrameRead(left, answers, size);
        if n < OVERHEAD + Padded(size) then this.(left := left - n, answers := rest, cut := n > 0)
        else Progress(received + 1, size - Min(size, cap), left - n, rest, false)
    }
  }

  function After(all: seq<bytes>, answers: seq<Answer>, caps: seq<nat>): Progress {
    if caps == [] then Progress(0, 0, WireSize(all), answers, false)
    else After(all, answers, caps[..|caps| - 1]).Polled(all, caps[|caps| - 1])
  }

  lemma AfterSnoc(all: seq<bytes>, answers: seq<Answer>, caps: seq<nat>, cap: nat)
    ensures After(all, answers, caps + [cap]) == After(all, answers, caps).Polled(all, cap)
  {
    assert (caps + [cap])[..|caps|] == caps;
  }

  /** The peer has sent these frames; when their bytes arrive is up to TCP. */
  ghost predicate PeerSent(r: RlpxReader, all: seq<bytes>)
    reads r.tcpIn
  {
    AllShort(all) && r.tcpIn.sent == SendAll(r.ingress.p, r.start, all).1
  }

  ghost predicate Shows(r: RlpxReader, x: Progress)
    reads r, r.tcpIn
  {
    if x.cut then r.lost > 0
    else
      && r.lost == 0 && |r.frames| == x.received && |r.Unread()| == x.unread
      && |r.tcpIn.inFlight| == x.left && r.tcpIn.readAnswers == x.answers
  }

  lemma SizeGrows(frames: seq<bytes>)
    ensures WireSize(frames) > 0 <==> frames != []
  {
  }

  /** A reader that has lost nothing has the first frames, in order, and all of them once everything has arrived; a
      reader that has lost something never gets them all. */
  lemma ReaderEnds(r: RlpxReader, all: seq<bytes>)
    requires r.Valid() && PeerSent(r, all)
    ensures r.lost == 0 ==> r.frames <= all
    ensures r.lost > 0 ==> r.frames != all
    ensures r.tcpIn.inFlight == [] ==> (r.frames == all <==> r.lost == 0)
  {
    hide SendAll, ReceiveAll, WireSize, Concat;
    var p, sent, received := r.ingress.p, r.tcpIn.sent, r.tcpIn.received;
    SentSize(p, r.start, all);
    assert sent == received + r.tcpIn.inFlight;
    if r.lost == 0 {
      HonestPrefix(p, r.start, all, received, r.frames);
      var left := all[|r.frames|..];
      SentSize(p, r.ingress.State(), left);
      SizeGrows(left);
      assert all == r.frames + left;
    }
  }

  /** Without a loss so far, TCP has the encoding of the frames that are still to come. */
  lemma Remaining(r: RlpxReader, all: seq<bytes>)
    requires r.Valid() && PeerSent(r, all) && r.lost == 0
    ensures |r.frames| <= |all| && AllShort(all[|r.frames|..])
    ensures r.tcpIn.inFlight == SendAll(r.ingress.p, r.ingress.State(), all[|r.frames|..]).1
  {
    hide SendAll, ReceiveAll, WireSize, Concat;
    HonestPrefix(r.ingress.p, r.start, all, r.tcpIn.received, r.frames);
    var left := all[|r.frames|..];
    assert forall i :: 0 <= i < |left| ==> left[i] == all[|r.frames| + i];
    assert r.tcpIn.sent == r.tcpIn.received + r.tcpIn.inFlight;
    FirstTaken(r.tcpIn.received, [], r.tcpIn.inFlight, SendAll(r.ingress.p, r.ingress.State(), left).1);
  }

  /** On an honest wire the sizes of the frames tell how much a poll takes. */
  lemma HonestTaken(p: Primitives, s: Frames, left: seq<bytes>, answers: seq<Answer>)
    requires AllShort(left)
    ensures var wire := SendAll(p, s, left).1;
            FrameTaken(p, s, wire, answers) == FrameRead(|wire|, answers, if left == [] then 0 else |left[0]|)
  {
    hide PartRead, HeaderEncoded, DataEncoded, HeaderDecoded, Encoded;
    if left == [] {
    } else {
      EncodedParts(p, s, left[0]);
      HeaderLockstep(p, s, |left[0]|);
      var (s1, header) := HeaderEncoded(p, s, |left[0]|);
      assert SendAll(p, s, left).1[..HEADER_LEN + MAC_LEN] == header;
    }
  }

  /** Up to the end of a frame, the blocking reader gets the frame as sent, or runs out of bytes. */
  lemma HonestPoll(p: Primitives, s: Frames, left: seq<bytes>, taken: bytes)
    requires AllShort(left) && taken <= SendAll(p, s, left).1
    requires left != [] ==> |taken| <= OVERHEAD + Padded(|left[0]|)
    ensures left == [] ==> taken == []
    ensures Received(p, s, taken).1
         == if left != [] && |taken| == OVERHEAD + Padded(|left[0]|) then Success(left[0]) else Failure(StreamEnded)
  {
    hide Encoded, Received, Padded;
    if left == [] {
      ReceivedShort(p, s, taken);
    } else {
      EncodedSize(p, s, left[0]);
      var wire := Encoded(p, s, left[0]).1;
      assert taken <= wire;
      if |taken| == |wire| {
        assert taken == wire == wire + [];
        FrameLockstep(p, s, left[0], []);
      } else {
        PartialFrame(p, s, left[0], taken);
      }
    }
  }

  lemma InFlight(r: RlpxReader)
    requires r.Valid()
    ensures r.tcpIn.sent == r.tcpIn.received + r.tcpIn.inFlight
  {
  }

  /** One poll, whatever TCP answers. */
  method MakeRead(r: RlpxReader, all: seq<bytes>, cap: nat, ghost x: Progress) returns (d: Poll<bytes>)
    requires r.Valid() && PeerSent(r, all) && Shows(r, x)
    modifies r, r.ingress, r.tcpIn
    ensures r.Valid() && PeerSent(r, all) && Shows(r, x.Polled(all, cap))
    ensures r.delivered == old(r.delivered) + (if d.Ready? then d.value else [])
    ensures !x.cut ==> d != Failed(Authentication)
  {
    hide SendAll, Received, FrameTaken, FrameRead, r.Valid, AllShort, Padded;
    ghost var p, s, received, inFlight := r.ingress.p, r.ingress.State(), r.tcpIn.received, r.tcpIn.inFlight;
    ghost var left := [];
    if !x.cut {
      Remaining(r, all);
      InFlight(r);
      left := all[x.received..];
      HonestTaken(p, s, left, x.answers);
    }
    ghost var taken;
    d, taken := r.PollRead(cap);
    if !x.cut && x.unread == 0 {
      InFlight(r);
      FirstTaken(received, taken, inFlight, r.tcpIn.inFlight);
      HonestPoll(p, s, left, taken);
      assert d.Ready? ==> left != [] && r.frames[x.received] == left[0];
      assert d.Ready? <==> |taken| == OVERHEAD + Padded(if left == [] then 0 else |left[0]|);
    }
  }

  function ReturnedBy(trace: seq<Poll<bytes>>): bytes {
    if trace == [] then []
    else
      var last := trace[|trace| - 1];
      ReturnedBy(trace[..|trace| - 1]) + if last.Ready? then last.value else []
  }

  lemma ReturnedSnoc(trace: seq<Poll<bytes>>, d: Poll<bytes>)
    ensures ReturnedBy(trace + [d]) == ReturnedBy(trace) + if d.Ready? then d.value else []
  {
    assert (trace + [d])[..|trace|] == trace;
  }

  lemma StartsAt(r: RlpxReader, all: seq<bytes>)
    requires r.Valid() && PeerSent(r, all) && r.tcpIn.received == [] && r.delivered == []
    ensures Shows(r, After(all, r.tcpIn.readAnswers, [])) && ReturnedBy([]) == []
  {
    hide SendAll, ReceiveAll;
    SentSize(r.ingress.p, r.start, all);
    SizeGrows(r.frames);
  }

  /** A poll that ended within a frame stays so. */
  lemma {:induction false} CutStays(all: seq<bytes>, answers: seq<Answer>, caps: seq<nat>, more: seq<nat>)
    requires After(all, answers, caps).cut
    ensures After(all, answers, caps + more).cut
    decreases more
  {
    if more == [] {
      assert caps + more == caps;
    } else {
      var n := |more| - 1;
      CutStays(all, answers, caps, more[..n]);
      AfterSnoc(all, answers, caps + more[..n], more[n]);
      assert caps + more == caps + more[..n] + [more[n]];
    }
  }

  /** Every schedule of reads, over all answers of TCP: which frames are received follows from the sizes of those sent.
      As long as no poll ends within a frame, having read some of it, they are the first ones sent, no poll fails to
      authenticate, and callers get a prefix of the contents, in order. After such a poll the reader never gets them
      all. */
  method RunReader(r: RlpxReader, all: seq<bytes>, caps: seq<nat>) returns (trace: seq<Poll<bytes>>)
    requires r.Valid() && PeerSent(r, all) && r.tcpIn.received == [] && r.delivered == []
    modifies r, r.ingress, r.tcpIn
    ensures r.Valid() && |trace| == |caps| && r.delivered == ReturnedBy(trace)
    ensures var x := After(all, old(r.tcpIn.readAnswers), caps);
            && Shows(r, x)
            && (!x.cut ==>
                  && x.received <= |all| && r.frames == all[..x.received]
                  && r.delivered <= Concat(all) && Failed(Authentication) !in trace)
            && (r.frames == all <==> !x.cut && x.received == |all|)
            && (r.tcpIn.inFlight == [] ==> (r.frames == all <==> !x.cut))
  {
    hide After, Progress.Polled, Concat, ReturnedBy, PeerSent, r.Accounted;
    ghost var answers := r.tcpIn.readAnswers;
    StartsAt(r, all);
    trace := [];
    while |trace| < |caps|
      invariant |trace| <= |caps| && r.Valid() && PeerSent(r, all) && r.delivered == ReturnedBy(trace)
      invariant Shows(r, After(all, answers, caps[..|trace|]))
      invariant !After(all, answers, caps[..|trace|]).cut ==> Failed(Authentication) !in trace
    {
      ghost var before, cap := caps[..|trace|], caps[|trace|];
      var d := MakeRead(r, all, caps[|trace|], After(all, answers, before));
      AfterSnoc(all, answers, before, cap);
      assert caps[..|trace| + 1] == before + [cap];
      if After(all, answers, before).cut {
        CutStays(all, answers, before, [cap]);
      }
      ReturnedSnoc(trace, d);
      trace := trace + [d];
    }
    assert caps[..|trace|] == caps;
    ReaderEnds(r, all);
    if r.lost == 0 {
      ConcatPrefix(r.frames, all);
    }
  }

  // ----- When a poll ends within a frame ------------------------------------

  /** Wherever a frame begins, it is enough that TCP hands out some bytes of it and then nothing. */
  lemma StallCuts(all: seq<bytes>, answers: seq<Answer>, caps: seq<nat>, cap: nat, more: seq<nat>)
    requires var x := After(all, answers, caps);
             && !x.cut && x.unread == 0 && x.received < |all| && x.left > 0 && |x.answers| >= 2
             && Moved(x.answers[0], 1) > 0 && Moved(x.answers[1], 1) == 0
    ensures After(all, answers, caps + [cap] + more).cut
  {
    hide After;
    var x := After(all, answers, caps);
    var header, n := HEADER_LEN + MAC_LEN, Moved(x.answers[0], Min(HEADER_LEN + MAC_LEN, x.left));
    PartReadStep(x.left, x.answers, header);
    PartReadStep(x.left - n, x.answers[1..], header - n);
    if n == header {
      PartReadStep(x.left - header, x.answers[1..], Padded(|all[x.received]|) + MAC_LEN);
    }
    AfterSnoc(all, answers, caps, cap);
    CutStays(all, answers, caps + [cap], more);
  }

  /** One byte and then a TCP that is not ready lose the connection. */
  method StalledRead(r: RlpxReader, all: seq<bytes>, caps: seq<nat>) returns (trace: seq<Poll<bytes>>)
    requires r.Valid() && PeerSent(r, all) && r.tcpIn.received == [] && r.delivered == []
    requires [Moves(1), NotReady] <= r.tcpIn.readAnswers && all != [] && caps != []
    modifies r, r.ingress, r.tcpIn
    ensures r.Valid() && |trace| == |caps| && r.frames != all
  {
    hide r.Valid, PeerSent;
    SizeGrows(all);
    assert r.tcpIn.readAnswers[0] == Moves(1) && r.tcpIn.readAnswers[1] == NotReady;
    StallCuts(all, r.tcpIn.readAnswers, [], caps[0], caps[1..]);
    assert [] + [caps[0]] + caps[1..] == caps;
    trace := RunReader(r, all, caps);
  }

  /** TCP answers every poll with at least one byte, as long as there are any. */
  ghost predicate Flows(left: nat, answers: seq<Answer>) {
    |answers| >= left && forall i :: 0 <= i < |answers| ==> Moved(answers[i], 1) > 0
  }

  lemma FlowsOn(left: nat, answers: seq<Answer>, m: nat)
    requires Flows(left, answers) && m <= left && (left == 0 || m > 0)
    ensures Flows(left - m, Behind(answers))
  {
  }

  lemma {:induction false} PartFlows(left: nat, answers: seq<Answer>, n: nat)
    requires Flows(left, answers)
    ensures var (m, rest) := PartRead(left, answers, n); m == Min(n, left) && Flows(left - m, rest)
    decreases n
  {
    if n == 0 {
    } else {
      var m := Moved(Next(answers), Min(n, left));
      FlowsOn(left, answers, m);
      if m > 0 {
        PartFlows(left - m, Behind(answers), n - m);
      }
    }
  }

  lemma {:induction false} SizeSplits(all: seq<bytes>, n: nat)
    requires n <= |all|
    ensures WireSize(all) == WireSize(all[..n]) + WireSize(all[n..])
    decreases |all|
  {
    if n == |all| {
      assert all[..n] == all;
    } else {
      var last := |all| - 1;
      SizeSplits(all[..last], n);
      assert all[..last][..n] == all[..n] && all[..last][n..] == all[n..][..last - n];
    }
  }

  lemma FrameFlows(all: seq<bytes>, x: Progress)
    requires x.received <= |all| && x.left == WireSize(all[x.received..]) && Flows(x.left, x.answers)
    ensures var size := if x.received < |all| then |all[x.received]| else 0;
            var (n, rest) := FrameRead(x.left, x.answers, size);
            && Flows(x.left - n, rest)
            && (x.received == |all| ==> n == 0)
            && (x.received < |all| ==>
                  n == OVERHEAD + Padded(size) && x.left - n == WireSize(all[x.received + 1..]))
  {
    hide WireSize, Flows, PartRead;
    var header, left := HEADER_LEN + MAC_LEN, all[x.received..];
    PartFlows(x.left, x.answers, header);
    var (n, rest) := PartRead(x.left, x.answers, header);
    if left == [] {
      SizeGrows([]);
    } else {
      SizeSplits(left, 1);
      assert left[..1] == [] + [left[0]] && left[1..] == all[x.received + 1..];
      SizeGrows([]);
      WireSizeSnoc([], left[0]);
      PartFlows(x.left - header, rest, Padded(|left[0]|) + MAC_LEN);
    }
  }

  /** Where TCP never stalls, no poll ends within a frame. */
  lemma {:induction false} FlowsUncut(all: seq<bytes>, answers: seq<Answer>, caps: seq<nat>)
    requires Flows(WireSize(all), answers)
    ensures var x := After(all, answers, caps);
            !x.cut && x.received <= |all| && x.left == WireSize(all[x.received..]) && Flows(x.left, x.answers)
    decreases caps
  {
    hide WireSize, Flows;
    if caps == [] {
      assert all[0..] == all;
    } else {
      FlowsUncut(all, answers, caps[..|caps| - 1]);
      var x := After(all, answers, caps[..|caps| - 1]);
      if x.unread == 0 {
        FrameFlows(all, x);
      }
    }
  }
}
