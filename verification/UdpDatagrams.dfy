/** The stream of length-prefixed UDP datagrams behind a UDP_ASSOCIATE request. */
module UdpDatagrams {
  import opened Wrappers
  import opened Bytes
  import opened ByteSource
  import opened ArkFrame

  datatype Datagram = Datagram(target: FrameTarget, payload: bytes)

  /** The contents of one frame behind its length. */
  function ParseFrame(utf8: bytes -> bool, buf: bytes): Result<Datagram, FrameFault>
    requires buf != []
  {
    var addr := ParseAddrPort(utf8, buf[1..], buf[0]);
    if addr.Failure? then Failure(addr.error)
    else
      var consumed := 1 + addr.value.1;
      if |buf| < consumed + 2 then Failure(TruncatedDlen)
      else if |buf| != consumed + 2 + U16At(buf, consumed) then Failure(DlenMismatch)
      else Success(Datagram(addr.value.0, buf[consumed + 2..]))
  }

  /** One `read_udp_datagram`: the datagram and the bytes left. */
  function DatagramAt(utf8: bytes -> bool, input: bytes): Result<(Datagram, bytes), FrameFault> {
    if |input| < 2 then Failure(StreamEnded)
    else
      var total := U16At(input, 0);
      if total < 3 then Failure(TotalTooSmall)
      else if |input| < 2 + total then Failure(StreamEnded)
      else
        var d := ParseFrame(utf8, input[2..2 + total]);
        if d.Failure? then Failure(d.error) else Success((d.value, input[2 + total..]))
  }

  method ReadUdpDatagram(utf8: bytes -> bool, reader: ByteSource) returns (r: Result<Datagram, FrameFault>)
    modifies reader
    ensures match DatagramAt(utf8, old(reader.rest))
            case Success((d, rest)) => r == Success(d) && reader.rest == rest
            case Failure(e) => r == Failure(e)
  {
    hide ParseFrame, FromBe;
    ghost var input := reader.rest;
    var lenBuf := reader.ReadExact(2);
    if lenBuf.Failure? {
      return Failure(StreamEnded);
    }
    assert lenBuf.value[0..2] == input[0..2];
    var total := U16At(lenBuf.value, 0);
    if total < 3 {
      return Failure(TotalTooSmall);
    }
    var buf := reader.ReadExact(total);
    if buf.Failure? {
      return Failure(StreamEnded);
    }
    assert buf.value == input[2..2 + total] && reader.rest == input[2 + total..];
    r := ParseFrame(utf8, buf.value);
  }

  // ----- One datagram -------------------------------------------------------

  /** The frame of a datagram, without any of the builder's checks. */
  function Framed(d: Datagram): bytes {
    var addrPart := [Atype(d.target)] + AddrPort(d.target);
    Be(|addrPart| + 2 + |d.payload|, 2) + addrPart + Be(|d.payload|, 2) + d.payload
  }

  /** What the builder accepts; its second size check never fires, and both u16 conversions are exact. */
  lemma BuildsIff(t: FrameTarget, payload: bytes)
    ensures var r := BuildUdpDatagram(t, payload);
            && (r.Success? <==> |payload| <= MAX_UDP_PAYLOAD && Buildable(t))
            && (r.Success? ==> r.value == Framed(Datagram(t, payload)) && |r.value| <= 2 + 65259)
            && r != Failure(FrameTooLarge)
  {
  }

  lemma ParseFrameInverse(utf8: bytes -> bool, d: Datagram)
    requires Parsable(utf8, d.target) && |d.payload| <= U16_MAX
    ensures ParseFrame(utf8, [Atype(d.target)] + AddrPort(d.target) + Be(|d.payload|, 2) + d.payload) == Success(d)
  {
    hide ParseAddrPort, AddrPort, Atype, U16At, Be;
    var addrPart := [Atype(d.target)] + AddrPort(d.target);
    var buf := addrPart + Be(|d.payload|, 2) + d.payload;
    ParseInverse(utf8, d.target, Be(|d.payload|, 2) + d.payload);
    assert buf[1..] == AddrPort(d.target) + (Be(|d.payload|, 2) + d.payload);
    U16Inverse(|d.payload|, addrPart, d.payload);
    assert buf[|addrPart| + 2..] == d.payload;
  }

  lemma FramedArrives(utf8: bytes -> bool, d: Datagram, behind: bytes)
    requires Parsable(utf8, d.target) && |Framed(d)| <= 2 + U16_MAX
    ensures DatagramAt(utf8, Framed(d) + behind) == Success((d, behind))
  {
    hide AddrPort, Atype, ParseFrame, U16At, Be;
    var frame := [Atype(d.target)] + AddrPort(d.target) + Be(|d.payload|, 2) + d.payload;
    var total, input := |frame|, Framed(d) + behind;
    assert input == [] + Be(total, 2) + (frame + behind);
    U16Inverse(total, [], frame + behind);
    ParseFrameInverse(utf8, d);
    assert input[2..2 + total] == frame && input[2 + total..] == behind;
  }

  lemma ParseFrameUnique(utf8: bytes -> bool, buf: bytes)
    requires buf != [] && ParseFrame(utf8, buf).Success?
    ensures var d := ParseFrame(utf8, buf).value;
            && Parsable(utf8, d.target) && |d.payload| <= U16_MAX
            && buf == [Atype(d.target)] + AddrPort(d.target) + Be(|d.payload|, 2) + d.payload
  {
    hide ParseAddrPort, AddrPort, Atype, U16At, Be;
    ParseUnique(utf8, buf[1..], buf[0]);
    var consumed := 1 + ParseAddrPort(utf8, buf[1..], buf[0]).value.1;
    U16Unique(buf, consumed);
    assert buf == [buf[0]] + buf[1..][..consumed - 1] + buf[consumed..consumed + 2] + buf[consumed + 2..];
  }

  lemma ReadIsFramed(utf8: bytes -> bool, input: bytes)
    requires DatagramAt(utf8, input).Success?
    ensures var (d, rest) := DatagramAt(utf8, input).value;
            input == Framed(d) + rest && Parsable(utf8, d.target)
  {
    hide ParseFrame, AddrPort, Atype, U16At, Be;
    var total := U16At(input, 0);
    ParseFrameUnique(utf8, input[2..2 + total]);
    U16Unique(input, 0);
    assert input == input[0..2] + input[2..2 + total] + input[2 + total..];
  }

  /** Whatever is read is the frame of the datagram it is read as, and the builder makes that same frame from it
      exactly when the domain and the payload are within the builder's limits. */
  lemma RebuildsIff(utf8: bytes -> bool, input: bytes)
    requires DatagramAt(utf8, input).Success?
    ensures var (d, rest) := DatagramAt(utf8, input).value;
            && input == Framed(d) + rest
            && (BuildUdpDatagram(d.target, d.payload) == Success(Framed(d))
                <==> |d.payload| <= MAX_UDP_PAYLOAD && Buildable(d.target))
  {
    hide ParseFrame, AddrPort, Atype, U16At, Be, Framed, BuildUdpDatagram;
    var (d, rest) := DatagramAt(utf8, input).value;
    ReadIsFramed(utf8, input);
    BuildsIff(d.target, d.payload);
  }

  // ----- The stream ---------------------------------------------------------

  function BuildAll(ds: seq<Datagram>): Result<bytes, FrameFault> {
    if ds == [] then Success([])
    else
      var first :- BuildUdpDatagram(ds[0].target, ds[0].payload);
      var rest :- BuildAll(ds[1..]);
      Success(first + rest)
  }

  function ReadAll(utf8: bytes -> bool, input: bytes, n: nat): Result<(seq<Datagram>, bytes), FrameFault>
    decreases n
  {
    if n == 0 then Success(([], input))
    else
      var first :- DatagramAt(utf8, input);
      var more :- ReadAll(utf8, first.1, n - 1);
      Success(([first.0] + more.0, more.1))
  }

  /** Any stream of built datagrams is read as that sequence, and what follows stays in the stream. */
  lemma {:induction false} StreamRoundTrip(utf8: bytes -> bool, ds: seq<Datagram>, behind: bytes)
    requires BuildAll(ds).Success?
    requires forall i :: 0 <= i < |ds| ==> ds[i].target.Domain? ==> utf8(ds[i].target.name)
    ensures ReadAll(utf8, BuildAll(ds).value + behind, |ds|) == Success((ds, behind))
    decreases ds
  {
    hide DatagramAt, BuildUdpDatagram, Framed;
    if ds == [] {
      assert [] + behind == behind;
    } else {
      var rest := BuildAll(ds[1..]).value;
      BuildsIff(ds[0].target, ds[0].payload);
      FramedArrives(utf8, ds[0], rest + behind);
      StreamRoundTrip(utf8, ds[1..], behind);
      assert Framed(ds[0]) + rest + behind == Framed(ds[0]) + (rest + behind);
      assert [ds[0]] + ds[1..] == ds;
    }
  }

  /** Everything read, put back in front of what is left, is the input: no byte is lost, changed or moved between
      datagrams. */
  lemma {:induction false} ReadAllConserves(utf8: bytes -> bool, input: bytes, n: nat)
    requires ReadAll(utf8, input, n).Success?
    ensures var (ds, rest) := ReadAll(utf8, input, n).value;
            |ds| == n && input == Concat(seq(n, i requires 0 <= i < n => Framed(ds[i]))) + rest
    decreases n
  {
    hide DatagramAt, Framed;
    if n == 0 {
      assert Concat<byte>([]) + input == input;
    } else {
      var (d, rest1) := DatagramAt(utf8, input).value;
      ReadIsFramed(utf8, input);
      ReadAllConserves(utf8, rest1, n - 1);
      var (more, rest) := ReadAll(utf8, rest1, n - 1).value;
      var ds := [d] + more;
      var frames := seq(n, i requires 0 <= i < n => Framed(ds[i]));
      assert frames[1..] == seq(n - 1, i requires 0 <= i < n - 1 => Framed(more[i]));
      assert Framed(d) + (Concat(frames[1..]) + rest) == (Framed(d) + Concat(frames[1..])) + rest;
    }
  }

  lemma AddrSize(t: FrameTarget)
    requires Buildable(t)
    ensures |AddrPort(t)| <= 256
  {
  }

  /** A datagram frame, byte for byte: the length of the rest, the address as in a request, the length of the payload,
      the payload. */
  lemma DatagramBytes(t: FrameTarget, payload: bytes)
    requires Buildable(t) && |payload| <= 65000
    ensures var request := BuildRequest(t).value[1..];
            var total, n := |request| + 2 + |payload|, |payload|;
            && total < 0x1_0000
            && BuildUdpDatagram(t, payload)
               == Success([(total / 0x100) as byte, (total % 0x100) as byte] + request
                          + [(n / 0x100) as byte, (n % 0x100) as byte] + payload)
  {
    hide Be;
    var request := [CMD_TCP_CONNECT, Atype(t)] + AddrPort(t);
    assert request[1..] == [Atype(t)] + AddrPort(t);
    AddrSize(t);
    BeTwo(|request[1..]| + 2 + |payload|);
    BeTwo(|payload|);
  }
}
