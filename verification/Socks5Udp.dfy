/** The SOCKS5 UDP request header (section 7 of RFC 1928) at the client, in front of the ARK-frame datagrams. */
module Socks5Udp {
  import opened Wrappers
  import opened Bytes
  import opened ArkFrame
  import opened UdpDatagrams

  const HEADER_START: nat := 4   // RSV (2), FRAG (1), ATYP (1)

  /** The destination of a SOCKS5 datagram and where its payload starts. */
  function ParseUdpTarget(utf8: bytes -> bool, pkt: bytes, atyp: byte): (r: Option<(FrameTarget, nat)>)
    ensures r.Some? ==> r.value.1 <= |pkt|
  {
    if atyp == 1 then
      if |pkt| < 4 + 4 + 2 then None else Some((Ipv4(pkt[4..8], U16At(pkt, 8)), 10))
    else if atyp == 4 then
      if |pkt| < 4 + 16 + 2 then None else Some((Ipv6(pkt[4..20], U16At(pkt, 20)), 22))
    else if atyp == 3 then
      if |pkt| < 5 then None
      else
        var len := pkt[4] as nat;
        if len == 0 || |pkt| < 5 + len + 2 then None
        else if !utf8(pkt[5..5 + len]) then None
        else Some((Domain(pkt[5..5 + len], U16At(pkt, 5 + len)), 5 + len + 2))
    else None
  }

  function BuildUdpHeader(t: FrameTarget): bytes {
    [0, 0, 0] + [Atype(t)] + AddrPort(t)
  }

  /** What the relay does with a datagram from the SOCKS5 client: it drops it, sends it into the tunnel as a frame,
      or stops because the frame cannot be built. */
  datatype Relayed = Dropped | Sent(frame: bytes) | Stopped(fault: FrameFault)

  function Outbound(utf8: bytes -> bool, pkt: bytes): Relayed {
    if |pkt| < 4 || pkt[0] != 0 || pkt[1] != 0 || pkt[2] != 0 then Dropped
    else
      var target := ParseUdpTarget(utf8, pkt, pkt[3]);
      if target.None? then Dropped
      else
        var frame := BuildUdpDatagram(target.value.0, pkt[target.value.1..]);
        if frame.Failure? then Stopped(frame.error) else Sent(frame.value)
  }

  /** The reply to the SOCKS5 client for a datagram from the tunnel. */
  function Inbound(d: Datagram): bytes {
    BuildUdpHeader(d.target) + d.payload
  }

  lemma SameU16(pkt: bytes, i: nat)
    requires HEADER_START <= i && i + 2 <= |pkt|
    ensures U16At(pkt, i) == U16At(pkt[HEADER_START..], i - HEADER_START)
  {
    assert pkt[i..i + 2] == pkt[HEADER_START..][i - HEADER_START..i - HEADER_START + 2];
  }

  /** This parser and the one of ARK-frame accept the same addresses, with the same target and length. */
  lemma SameAsArkFrame(utf8: bytes -> bool, pkt: bytes, atyp: byte)
    requires |pkt| >= HEADER_START
    ensures var socks, ark := ParseUdpTarget(utf8, pkt, atyp), ParseAddrPort(utf8, pkt[HEADER_START..], atyp);
            && (socks.Some? <==> ark.Success?)
            && (socks.Some? ==> socks.value == (ark.value.0, HEADER_START + ark.value.1))
  {
    hide U16At, FromBe;
    var buf := pkt[HEADER_START..];
    if atyp == 1 && |pkt| >= 10 {
      SameU16(pkt, 8);
      assert buf[..4] == pkt[4..8];
    } else if atyp == 4 && |pkt| >= 22 {
      SameU16(pkt, 20);
      assert buf[..16] == pkt[4..20];
    } else if atyp == 3 && |pkt| >= 5 && |pkt| >= 5 + pkt[4] as nat + 2 {
      var len := pkt[4] as nat;
      SameU16(pkt, 5 + len);
      assert buf[1..1 + len] == pkt[5..5 + len];
    }
  }

  /** A reply header is parsed back to its target exactly for domains of 1 to 255 bytes. */
  lemma HeaderParsesBackIff(utf8: bytes -> bool, t: FrameTarget, payload: bytes)
    requires t.Domain? ==> utf8(t.name)
    ensures var pkt := BuildUdpHeader(t) + payload;
            ParseUdpTarget(utf8, pkt, pkt[3]) == Some((t, |BuildUdpHeader(t)|))
            <==> (t.Domain? ==> 1 <= |t.name| <= 255)
  {
    hide ParseAddrPort, U16At, Be;
    var pkt := BuildUdpHeader(t) + payload;
    if t.Domain? ==> 1 <= |t.name| <= 255 {
      SameAsArkFrame(utf8, pkt, Atype(t));
      assert pkt[HEADER_START..] == AddrPort(t) + payload;
      ParseInverse(utf8, t, payload);
    } else {
      assert pkt[4] as nat == |t.name| % 256;
    }
  }

  /** A header is recognized in any packet that starts with three zero bytes and parses. */
  predicate HasHeader(utf8: bytes -> bool, pkt: bytes) {
    |pkt| >= 4 && pkt[0] == 0 && pkt[1] == 0 && pkt[2] == 0 && ParseUdpTarget(utf8, pkt, pkt[3]).Some?
  }

  /** Such a packet is the header of its target followed by its payload. */
  lemma HeaderUnique(utf8: bytes -> bool, pkt: bytes)
    requires HasHeader(utf8, pkt)
    ensures var (t, start) := ParseUdpTarget(utf8, pkt, pkt[3]).value;
            pkt == BuildUdpHeader(t) + pkt[start..] && Parsable(utf8, t)
  {
    hide ParseUdpTarget, ParseAddrPort, AddrPort, Atype;
    SameAsArkFrame(utf8, pkt, pkt[3]);
    ParseUnique(utf8, pkt[HEADER_START..], pkt[3]);
    var (t, start) := ParseUdpTarget(utf8, pkt, pkt[3]).value;
    assert pkt == pkt[..3] + [pkt[3]] + pkt[HEADER_START..][..start - HEADER_START] + pkt[start..];
    assert pkt[..3] == [0, 0, 0];
  }

  /** Any datagram of the client is dropped exactly if it has no header, and enters the tunnel exactly if it has one
      and the domain and the payload are within the frame's limits; else the relay stops. The server then reads the
      client's target and payload. */
  lemma OutboundKeeps(utf8: bytes -> bool, pkt: bytes, behind: bytes)
    ensures var sent := Outbound(utf8, pkt);
            && (sent.Dropped? <==> !HasHeader(utf8, pkt))
            && (HasHeader(utf8, pkt) ==>
                  var (t, start) := ParseUdpTarget(utf8, pkt, pkt[3]).value;
                  && (sent.Sent? <==> |pkt[start..]| <= MAX_UDP_PAYLOAD && Buildable(t))
                  && (sent.Sent? ==>
                        DatagramAt(utf8, sent.frame + behind) == Success((Datagram(t, pkt[start..]), behind))))
  {
    hide ParseUdpTarget, AddrPort, Atype, DatagramAt, BuildUdpDatagram, Framed;
    if HasHeader(utf8, pkt) {
      var (t, start) := ParseUdpTarget(utf8, pkt, pkt[3]).value;
      HeaderUnique(utf8, pkt);
      BuildsIff(t, pkt[start..]);
      if |pkt[start..]| <= MAX_UDP_PAYLOAD && Buildable(t) {
        FramedArrives(utf8, Datagram(t, pkt[start..]), behind);
      }
    }
  }

  /** In particular every datagram that a client writes in this form is recognized as written. */
  lemma WrittenIsRecognized(utf8: bytes -> bool, t: FrameTarget, payload: bytes)
    requires t.Domain? ==> 1 <= |t.name| <= 255 && utf8(t.name)
    ensures var pkt := BuildUdpHeader(t) + payload;
            && HasHeader(utf8, pkt) && ParseUdpTarget(utf8, pkt, pkt[3]).value.0 == t
            && pkt[ParseUdpTarget(utf8, pkt, pkt[3]).value.1..] == payload
  {
    hide ParseUdpTarget, AddrPort, Atype;
    HeaderParsesBackIff(utf8, t, payload);
    var header := BuildUdpHeader(t);
    assert (header + payload)[|header|..] == payload;
  }

  /** A datagram that the client reads from the tunnel reaches the SOCKS5 application with its source and
      payload. */
  lemma InboundKeeps(utf8: bytes -> bool, input: bytes)
    requires DatagramAt(utf8, input).Success?
    ensures var d := DatagramAt(utf8, input).value.0;
            var reply := Inbound(d);
            var parsed := ParseUdpTarget(utf8, reply, reply[3]);
            parsed.Some? && parsed.value.0 == d.target && reply[parsed.value.1..] == d.payload
  {
    hide ParseUdpTarget, AddrPort, Atype, DatagramAt, Framed;
    ReadIsFramed(utf8, input);
    var d := DatagramAt(utf8, input).value.0;
    HeaderParsesBackIff(utf8, d.target, d.payload);
    var header := BuildUdpHeader(d.target);
    assert (header + d.payload)[|header|..] == d.payload;
  }
}
