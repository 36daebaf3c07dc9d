/** The poll-driven byte stream over an established BIP 324 connection. */
module Bip324Stream {
  import opened Wrappers
  import opened Bytes
  import opened Bip324Primitives
  import opened FsChaCha20
  import opened FsChaCha20Poly1305
  import opened Packets
  import opened Receiving
  import opened Tcp

  /** `got` holds the filled part of the source's buffer. */
  datatype RecvState = Idle | ReadingLength(got: bytes) | ReadingBody(aeadLen: nat, got: bytes)

  /** A written buffer travels as one ordinary packet. */
  function AsPackets(contents: seq<bytes>): (ps: seq<Packet>)
    ensures |ps| == |contents|
    ensures forall i :: 0 <= i < |ps| ==> ps[i] == Packet(contents[i], false)
  {
    seq(|contents|, i requires 0 <= i < |contents| => Packet(contents[i], false))
  }

  /** The wire bytes of one written buffer. */
  function PacketSize(buf: bytes): nat {
    LENGTH_FIELD_LEN + HEADER_LEN + |buf| + TAG_LEN
  }

  /** The writer as far as it follows from the calls and the answers of TCP: the buffers encrypted, how many encrypted
      bytes TCP has not taken, and the answers to come. */
  datatype Queue = Queue(committed: seq<bytes>, left: nat, answers: seq<Answer>) {
    /** A write first offers what is pending, and its own packet once nothing is. */
    function Written(buf: bytes): Queue {
      var (before, rest) := Drained(left, answers);
      if before > 0 || buf == [] then Queue(committed, before, rest)
      else
        var (after, behind) := Drained(PacketSize(buf), rest);
        Queue(committed + [buf], after, behind)
    }

    /** A flush offers what is pending, and then flushes TCP. */
    function Flushed(): Queue {
      var (before, rest) := Drained(left, answers);
      Queue(committed, before, if before > 0 then rest else Behind(rest))
    }
  }

  class Bip324Stream {
    const p: Primitives
    const tcpIn: Pipe
    const tcpOut: Pipe
    const sendL: FsChaCha20
    const sendP: FsChaCha20Poly1305
    const recvL: FsChaCha20
    const recvP: FsChaCha20Poly1305

    var readBuf: bytes
    var readPos: nat
    var recvState: RecvState
    var flushBuf: Option<bytes>
    var flushPos: nat

    // The history of the connection
    ghost const recvStart: Ciphers   // receive ciphers at construction
    ghost const sendStart: Ciphers   // send ciphers at construction
    ghost var packets: seq<bytes>    // contents decrypted
    ghost var delivered: bytes       // bytes returned to callers
    ghost var committed: seq<bytes>  // buffers encrypted

    ghost predicate Wired()
      reads sendL, sendP, recvL, recvP
    {
      && sendL != recvL && sendP != recvP
      && sendL.p == p && sendP.p == p && recvL.p == p && recvP.p == p
    }

    constructor (p: Primitives, tcpIn: Pipe, tcpOut: Pipe,
        sendL: FsChaCha20, sendP: FsChaCha20Poly1305, recvL: FsChaCha20, recvP: FsChaCha20Poly1305)
      requires sendL != recvL && sendP != recvP
      requires sendL.p == p && sendP.p == p && recvL.p == p && recvP.p == p
      requires tcpIn.Valid() && tcpOut.Valid() && tcpIn.received == [] && tcpOut.sent == []
      ensures ReaderValid() && WriterValid()
      ensures this.p == p && this.tcpIn == tcpIn && this.tcpOut == tcpOut
      ensures this.sendL == sendL && this.sendP == sendP && this.recvL == recvL && this.recvP == recvP
      ensures recvStart == Ciphers(recvL.State(), recvP.State())
      ensures sendStart == Ciphers(sendL.State(), sendP.State())
      ensures delivered == [] && packets == committed == []
    {
      this.p, this.tcpIn, this.tcpOut := p, tcpIn, tcpOut;
      this.sendL, this.sendP, this.recvL, this.recvP := sendL, sendP, recvL, recvP;
      readBuf, readPos, recvState := [], 0, Idle;
      flushBuf, flushPos := None, 0;
      recvStart, sendStart := Ciphers(recvL.State(), recvP.State()), Ciphers(sendL.State(), sendP.State());
      packets, delivered, committed := [], [], [];
      new;
      assert AsPackets(committed) == [] && tcpOut.sent + Unsent() == [];
    }

    // ----- Reading ----------------------------------------------------------

    /** This reader's ciphers and packets as a `Receiver` in the given phase. */
    ghost function Image(phase: Phase): Receiver
      reads `packets, recvL, recvP
    {
      Receiver(recvL.State(), recvP.State(), phase, packets, false)
    }

    /** The fields hold exactly what the byte-at-a-time receiver makes of the bytes read. */
    ghost predicate Tracks()
      reads `recvState, `packets, recvL, recvP, tcpIn`received
    {
      var s := Run(p, Between(recvStart, []), tcpIn.received);
      match recvState
      case Idle => s == Image(Length([]))
      case ReadingLength(got) =>
        && |got| <= LENGTH_FIELD_LEN
        && s == if |got| < LENGTH_FIELD_LEN then Image(Length(got)) else LengthComplete(p, Image(Length([])), got)
      case ReadingBody(aeadLen, got) =>
        && aeadLen >= HEADER_LEN + TAG_LEN && |got| <= aeadLen
        && s == if |got| < aeadLen then Image(Body(aeadLen, got)) else BodyComplete(p, Image(Body(aeadLen, [])), got)
    }

    /** Authentication has failed: the offending body stays in the buffer. */
    ghost predicate Rejected()
      reads `recvState
    {
      recvState.ReadingBody? && |recvState.got| == recvState.aeadLen
    }

    /** Between polls no completed length or body is left unprocessed, except a rejected one. */
    ghost predicate Settled()
      reads `recvState, recvP
    {
      match recvState
      case Idle => true
      case ReadingLength(got) => |got| < LENGTH_FIELD_LEN
      case ReadingBody(aeadLen, got) =>
        && aeadLen >= HEADER_LEN + TAG_LEN
        && (Rejected() ==> ContentsReceived(p, recvP.State(), got, []).1.BadTag?)
    }

    ghost function Buffered(): bytes
      reads `readBuf, `readPos
    {
      if readPos <= |readBuf| then readBuf[readPos..] else []
    }

    ghost predicate ReaderValid()
      reads `recvState, `packets, `readBuf, `readPos, `delivered, sendL, sendP, recvL, recvP, tcpIn
    {
      && Wired() && tcpIn.Valid()
      && readPos <= |readBuf|
      && Tracks() && Settled()
      && Concat(packets) == delivered + Buffered()
    }

    method StartPacket()
      requires Tracks() && recvState.Idle?
      modifies `recvState
      ensures Tracks() && Settled() && recvState == ReadingLength([])
    {
      hide Run;
      recvState := ReadingLength([]);
    }

    method FillLength() returns (stop: Option<Poll<bytes>>)
      requires Wired() && tcpIn.Valid() && Tracks() && Settled() && recvState.ReadingLength?
      modifies `recvState, tcpIn
      ensures Wired() && tcpIn.Valid() && Tracks()
      ensures recvState.ReadingLength? && (stop.None? <==> |recvState.got| == LENGTH_FIELD_LEN)
      ensures stop.Some? ==> Settled() && stop.value in {Pending, Failed(Io), Failed(UnexpectedEof)}
      ensures tcpIn.readStops == Noted(old(tcpIn.readStops), if stop.None? then None else StopOf(stop.value))
      ensures tcpIn.sent == old(tcpIn.sent) && tcpIn.writeStops == old(tcpIn.writeStops)
      ensures tcpIn.writeAnswers == old(tcpIn.writeAnswers)
      ensures |tcpIn.inFlight| <= |old(tcpIn.inFlight)|
    {
      hide Run, LengthReceived, ContentsReceived, Between;
      while |recvState.got| < LENGTH_FIELD_LEN
        invariant tcpIn.Valid() && Tracks() && recvState.ReadingLength?
        invariant tcpIn.sent == old(tcpIn.sent)
        invariant tcpIn.writeStops == old(tcpIn.writeStops) && tcpIn.readStops == old(tcpIn.readStops)
        invariant tcpIn.writeAnswers == old(tcpIn.writeAnswers)
        invariant |tcpIn.inFlight| <= |old(tcpIn.inFlight)|
        decreases LENGTH_FIELD_LEN - |recvState.got|
      {
        ghost var got := tcpIn.received;
        var poll := tcpIn.PollRead(LENGTH_FIELD_LEN - |recvState.got|);
        match poll
        case Pending => return Some(Pending);
        case Failed(e) => return Some(Failed(e));
        case Ready(data) =>
          if data == [] {
            assert tcpIn.received == got;
            return Some(Failed(UnexpectedEof));
          }
          RunAppend(p, Between(recvStart, []), got, data);
          RunLength(p, Image(Length(recvState.got)), data);
          recvState := ReadingLength(recvState.got + data);
      }
      stop := None;
    }

    method FillBody() returns (stop: Option<Poll<bytes>>)
      requires Wired() && tcpIn.Valid() && Tracks() && Settled() && recvState.ReadingBody?
      modifies `recvState, tcpIn
      ensures Wired() && tcpIn.Valid() && Tracks()
      ensures recvState.ReadingBody? && (stop.None? <==> |recvState.got| == recvState.aeadLen)
      ensures stop.Some? ==> Settled() && stop.value in {Pending, Failed(Io), Failed(UnexpectedEof)}
      ensures tcpIn.readStops == Noted(old(tcpIn.readStops), if stop.None? then None else StopOf(stop.value))
      ensures tcpIn.sent == old(tcpIn.sent) && tcpIn.writeStops == old(tcpIn.writeStops)
      ensures tcpIn.writeAnswers == old(tcpIn.writeAnswers)
      ensures old(Rejected()) ==> recvState == old(recvState) && tcpIn.received == old(tcpIn.received)
      ensures |tcpIn.inFlight| <= |old(tcpIn.inFlight)|
      ensures stop.None? && !old(Rejected()) ==> |tcpIn.inFlight| < |old(tcpIn.inFlight)|
    {
      hide Run, LengthReceived, ContentsReceived, Between;
      var aeadLen := recvState.aeadLen;
      while |recvState.got| < aeadLen
        invariant tcpIn.Valid() && Tracks() && recvState.ReadingBody? && recvState.aeadLen == aeadLen
        invariant tcpIn.sent == old(tcpIn.sent)
        invariant tcpIn.writeStops == old(tcpIn.writeStops) && tcpIn.readStops == old(tcpIn.readStops)
        invariant tcpIn.writeAnswers == old(tcpIn.writeAnswers)
        invariant old(Rejected()) ==> recvState == old(recvState) && tcpIn.received == old(tcpIn.received)
        invariant |tcpIn.inFlight| == |old(tcpIn.inFlight)| - |recvState.got| + |old(recvState.got)|
        decreases aeadLen - |recvState.got|
      {
        ghost var got := tcpIn.received;
        var poll := tcpIn.PollRead(aeadLen - |recvState.got|);
        match poll
        case Pending => return Some(Pending);
        case Failed(e) => return Some(Failed(e));
        case Ready(data) =>
          if data == [] {
            assert tcpIn.received == got;
            return Some(Failed(UnexpectedEof));
          }
          RunAppend(p, Between(recvStart, []), got, data);
          RunBody(p, Image(Body(aeadLen, recvState.got)), data);
          recvState := ReadingBody(aeadLen, recvState.got + data);
      }
      stop := None;
    }

    /** Serves up to `cap` buffered bytes. */
    method Serve(cap: nat) returns (data: bytes)
      requires ReaderValid()
      modifies `readPos, `delivered
      ensures ReaderValid()
      ensures data == old(Buffered())[..Min(|old(Buffered())|, cap)]
      ensures delivered == old(delivered) + data
    {
      hide Tracks, Settled, Concat;
      var available := readBuf[readPos..];
      data := available[..Min(|available|, cap)];
      readPos := readPos + |data|;
      delivered := delivered + data;
      assert Buffered() == available[|data|..];
      assert delivered + Buffered() == old(delivered) + (data + available[|data|..]);
    }

    /** All three length bytes are in: decrypt them, once, to get the size of the body. */
    method FinishLength()
      requires Wired() && Tracks() && recvState.ReadingLength? && |recvState.got| == LENGTH_FIELD_LEN
      modifies `recvState, recvL
      ensures Tracks() && Settled() && recvState.ReadingBody? && !Rejected()
    {
      hide Run, LengthReceived, ContentsReceived;
      var aeadLen := ReceiveLength(recvL, recvState.got);
      recvState := ReadingBody(aeadLen, []);
    }

    /** The whole body is in: decrypt it. A rejected body stays where it is. */
    method FinishBody() returns (received: Received)
      requires Wired() && Tracks() && recvState.ReadingBody? && |recvState.got| == recvState.aeadLen
      modifies `recvState, `packets, recvP
      ensures Tracks() && Settled()
      ensures received.BadTag? ==> Rejected() && packets == old(packets)
      ensures !received.BadTag? ==> recvState == Idle
      ensures received.Decoy? ==> packets == old(packets)
      ensures received.Contents? ==> packets == old(packets) + [received.contents]
      ensures received == ContentsReceived(p, old(recvP.State()), old(recvState).got, []).1
    {
      hide Run, LengthReceived, ContentsReceived;
      received := ReceiveContents(recvP, recvState.got, []);
      match received
      case BadTag =>
      case Decoy =>
        recvState := Idle;
      case Contents(m) =>
        recvState, packets := Idle, packets + [m];
    }

    /** Buffers the contents of a new packet and serves from it. */
    method Accept(m: bytes, cap: nat) returns (data: bytes)
      requires Wired() && tcpIn.Valid() && Tracks() && Settled()
      requires packets != [] && packets[|packets| - 1] == m && Concat(packets[..|packets| - 1]) == delivered
      modifies `readBuf, `readPos, `delivered
      ensures ReaderValid()
      ensures data == m[..Min(|m|, cap)] && delivered == old(delivered) + data
    {
      hide Run, Tracks, Settled, Concat;
      readBuf, readPos := m, 0;
      ConcatSnoc(packets[..|packets| - 1], m);
      assert packets[..|packets| - 1] + [m] == packets;
      assert Buffered() == m;
      data := Serve(cap);
    }

    /** Not ready or failed only because TCP was, or because authentication failed. */
    method PollRead(cap: nat) returns (r: Poll<bytes>)
      requires ReaderValid()
      modifies `recvState, `readBuf, `readPos, `packets, `delivered, recvL, recvP, tcpIn
      ensures ReaderValid()
      ensures tcpIn.sent == old(tcpIn.sent) && tcpIn.writeStops == old(tcpIn.writeStops)
      ensures tcpIn.writeAnswers == old(tcpIn.writeAnswers)
      ensures delivered == old(delivered) + (if r.Ready? then r.value else [])
      ensures tcpIn.readStops == Noted(old(tcpIn.readStops), StopOf(r))
      ensures old(Buffered()) != [] ==>
                && tcpIn.received == old(tcpIn.received) && packets == old(packets)
                && r == Ready(old(Buffered())[..Min(|old(Buffered())|, cap)])
      ensures old(Buffered()) == [] && r.Ready? ==>
                |packets| == |old(packets)| + 1 && old(packets) <= packets
                && var m := packets[|old(packets)|]; r.value == m[..Min(|m|, cap)]
      ensures !r.Ready? ==> packets == old(packets)
      ensures old(Buffered()) == [] ==> (r == Failed(Authentication) <==> Rejected())
      ensures old(Rejected()) ==> Rejected() && tcpIn.received == old(tcpIn.received) && packets == old(packets)
    {
      hide Run, Tracks, ContentsReceived, Between, Concat;
      if readPos < |readBuf| {
        var data := Serve(cap);
        return Ready(data);
      }
      assert Buffered() == [];
      while true
        invariant ReaderValid() && readPos == |readBuf|
        invariant tcpIn.sent == old(tcpIn.sent)
        invariant tcpIn.writeStops == old(tcpIn.writeStops) && tcpIn.readStops == old(tcpIn.readStops)
        invariant tcpIn.writeAnswers == old(tcpIn.writeAnswers)
        invariant packets == old(packets) && delivered == old(delivered) == Concat(packets)
        invariant old(Rejected()) ==> Rejected() && tcpIn.received == old(tcpIn.received)
        invariant Rejected() ==> old(Rejected())
        decreases |tcpIn.inFlight|, if recvState.Idle? then 2 else if recvState.ReadingLength? then 1 else 0
      {
        match recvState
        case Idle =>
          StartPacket();
        case ReadingLength(_) =>
          var stop := FillLength();
          if stop.Some? {
            return stop.value;
          }
          FinishLength();
        case ReadingBody(_, _) =>
          var stop := FillBody();
          if stop.Some? {
            return stop.value;
          }
          var received := FinishBody();
          match received
          case BadTag =>
            return Failed(Authentication);
          case Decoy =>
          case Contents(m) =>
            var data := Accept(m, cap);
            return Ready(data);
      }
    }

    // ----- Writing ----------------------------------------------------------

    /** Encrypted bytes that TCP has not taken yet. */
    ghost function Unsent(): bytes
      reads `flushBuf, `flushPos
    {
      if flushBuf.Some? && flushPos <= |flushBuf.value| then flushBuf.value[flushPos..] else []
    }

    /** `wire` is the encryption of the committed buffers, one packet each, and the ciphers stand behind it. */
    ghost predicate Encrypted(wire: bytes)
      reads `committed, sendL, sendP, recvL, recvP
    {
      && Wired() && Sendable(AsPackets(committed))
      && EncodeAll(p, sendStart, AsPackets(committed)) == (Ciphers(sendL.State(), sendP.State()), wire)
    }

    /** Every committed buffer was encrypted once, as one packet, and its bytes are in TCP or waiting, in order. */
    ghost predicate WriterValid()
      reads `flushBuf, `flushPos, `committed, sendL, sendP, recvL, recvP, tcpOut
    {
      && tcpOut.Valid()
      && (flushBuf.Some? ==> flushPos <= |flushBuf.value|)
      && (flushBuf.None? ==> flushPos == 0)
      && Encrypted(tcpOut.sent + Unsent())
    }

    /** One write to TCP from `flushBuf`; `None` if it made progress. */
    method WriteSome() returns (stop: Option<Poll<()>>)
      requires WriterValid() && flushBuf.Some? && flushPos < |flushBuf.value|
      modifies `flushPos, tcpOut
      ensures WriterValid() && flushPos <= |flushBuf.value|
      ensures var n := Moved(Next(old(tcpOut.writeAnswers)), |old(Unsent())|);
              (stop.None? <==> n > 0) && flushPos == old(flushPos) + n
      ensures tcpOut.writeAnswers == Behind(old(tcpOut.writeAnswers))
      ensures stop.Some? ==> StopsWrite(stop.value)
      ensures old(tcpOut.sent) <= tcpOut.sent
      ensures tcpOut.received == old(tcpOut.received)
      ensures tcpOut.sent + Unsent() == old(tcpOut.sent + Unsent())
      ensures tcpOut.writeStops == Noted(old(tcpOut.writeStops), if stop.None? then None else StopOf(stop.value))
    {
      hide Encrypted;
      ghost var sent := tcpOut.sent;
      var poll := tcpOut.PollWrite(flushBuf.value[flushPos..]);
      match poll
      case Pending => return Some(Pending);
      case Failed(e) => return Some(Failed(e));
      case Ready(n) =>
        if n == 0 {
          assert tcpOut.sent == sent;
          return Some(Failed(WriteZero));
        }
        MoveAcross(sent, flushBuf.value, flushPos, n);
        flushPos := flushPos + n;
        return None;
    }

    method DrivePendingWrite() returns (r: Poll<()>)
      requires WriterValid()
      modifies `flushBuf, `flushPos, tcpOut
      ensures WriterValid()
      ensures r.Ready? ==> flushBuf.None?
      ensures !r.Ready? ==> StopsWrite(r) && flushBuf.Some? && Unsent() != []
      ensures (|Unsent()|, tcpOut.writeAnswers) == Drained(|old(Unsent())|, old(tcpOut.writeAnswers))
      ensures old(tcpOut.sent) <= tcpOut.sent
      ensures tcpOut.received == old(tcpOut.received)
      ensures tcpOut.sent + Unsent() == old(tcpOut.sent + Unsent())
      ensures tcpOut.writeStops == Noted(old(tcpOut.writeStops), StopOf(r))
    {
      hide Encrypted;
      if flushBuf.None? {
        return Ready(());
      }
      while flushPos < |flushBuf.value|
        invariant WriterValid() && flushBuf.Some? && flushPos <= |flushBuf.value|
        invariant tcpOut.received == old(tcpOut.received) && tcpOut.writeStops == old(tcpOut.writeStops)
        invariant tcpOut.sent + Unsent() == old(tcpOut.sent + Unsent()) && old(tcpOut.sent) <= tcpOut.sent
        invariant Drained(|Unsent()|, tcpOut.writeAnswers) == Drained(|old(Unsent())|, old(tcpOut.writeAnswers))
        decreases |flushBuf.value| - flushPos
      {
        var stop := WriteSome();
        if stop.Some? {
          return stop.value;
        }
      }
      assert Unsent() == [];
      flushBuf, flushPos := None, 0;
      r := Ready(());
    }

    /** Encrypts `buf` as one packet into the empty `flushBuf`; the ciphers advance exactly once. */
    method Commit(buf: bytes)
      requires WriterValid() && flushBuf.None? && |buf| < CONTENTS_LIMIT
      modifies `flushBuf, `flushPos, `committed, sendL, sendP
      ensures WriterValid() && flushBuf.Some? && committed == old(committed) + [buf]
      ensures |Unsent()| == PacketSize(buf)
    {
      hide EncodeAll, Encoded;
      PacketRoundTrip(p, Ciphers(sendL.State(), sendP.State()), buf, [], false);
      EncodeSnoc(p, sendStart, AsPackets(committed), Packet(buf, false));
      assert AsPackets(committed + [buf]) == AsPackets(committed) + [Packet(buf, false)];
      assert tcpOut.sent + Unsent() == tcpOut.sent;
      var encrypted := EncPacket(sendL, sendP, buf, [], false);
      flushBuf, flushPos, committed := Some(encrypted), 0, committed + [buf];
      assert Unsent() == encrypted;
    }

    /** A write that fails has been committed nevertheless if TCP has taken all that was pending before it: the
        failure was then in sending the new packet, and its bytes may still be delivered. */
    method PollWrite(buf: bytes) returns (r: Poll<nat>)
      requires WriterValid()
      requires |buf| < CONTENTS_LIMIT
      modifies `flushBuf, `flushPos, `committed, sendL, sendP, tcpOut
      ensures WriterValid()
      ensures tcpOut.received == old(tcpOut.received)
      ensures r.Ready? ==> r.value == |buf| && committed == if buf == [] then old(committed) else old(committed) + [buf]
      ensures r.Pending? ==> committed == old(committed) && old(flushBuf).Some?
      ensures !r.Ready? ==> tcpOut.writeStops == Noted(old(tcpOut.writeStops), StopOf(r))
      ensures old(tcpOut.writeStops) <= tcpOut.writeStops
      ensures r.Failed? ==>
                committed == if old(tcpOut.sent + Unsent()) <= tcpOut.sent then old(committed) + [buf]
                             else old(committed)
      ensures r.Failed? ==> StopsWrite(r) && (buf != [] || committed == old(committed))
      ensures r.Ready? ==>
                tcpOut.writeStops == old(tcpOut.writeStops) + if Unsent() == [] then [] else [Waited]
      ensures var q := Queue(old(committed), |old(Unsent())|, old(tcpOut.writeAnswers)).Written(buf);
              committed == q.committed && |Unsent()| == q.left && tcpOut.writeAnswers == q.answers
    {
      hide Encrypted, Drained;
      if flushBuf.Some? {
        var drained := DrivePendingWrite();
        assert |old(tcpOut.sent + Unsent())| == |tcpOut.sent| + |Unsent()|;
        match drained
        case Pending => return Pending;
        case Failed(e) => return Failed(e);
        case Ready(_) =>
      }
      assert Unsent() == [] && (|Unsent()|, tcpOut.writeAnswers)
          == Drained(|old(Unsent())|, old(tcpOut.writeAnswers)) by {
        DrainedNothing(old(tcpOut.writeAnswers));
      }
      if buf == [] {
        return Ready(0);
      }
      assert tcpOut.sent + Unsent() == tcpOut.sent;
      Commit(buf);
      var drained := DrivePendingWrite();
      match drained
      case Pending => return Ready(|buf|);
      case Failed(e) => return Failed(e);
      case Ready(_) => return Ready(|buf|);
    }

    /** Readiness means that TCP has every encrypted byte. */
    method PollFlush() returns (r: Poll<()>)
      requires WriterValid()
      modifies `flushBuf, `flushPos, tcpOut
      ensures WriterValid()
      ensures tcpOut.received == old(tcpOut.received)
      ensures tcpOut.sent + Unsent() == old(tcpOut.sent + Unsent())
      ensures tcpOut.writeStops == Noted(old(tcpOut.writeStops), StopOf(r))
      ensures r.Ready? ==> Unsent() == []
      ensures var q := Queue(committed, |old(Unsent())|, old(tcpOut.writeAnswers)).Flushed();
              |Unsent()| == q.left && tcpOut.writeAnswers == q.answers
      ensures var (left, rest) := Drained(|old(Unsent())|, old(tcpOut.writeAnswers));
              r.Ready? <==> left == 0 && Next(rest).Moves?
    {
      hide Encrypted, Drained;
      if flushBuf.Some? {
        var drained := DrivePendingWrite();
        match drained
        case Pending => return Pending;
        case Failed(e) => return Failed(e);
        case Ready(_) =>
      }
      DrainedNothing(old(tcpOut.writeAnswers));
      r := tcpOut.PollFlush();
    }
  }
}
