/** ARK-frame: requests and the UDP datagram stream. `utf8` stands for the standard library's validity check. */
module ArkFrame {
  import opened Wrappers
  import opened Bytes
  import opened ByteSource

  const CMD_TCP_CONNECT: byte := 1
  const CMD_UDP_ASSOCIATE: byte := 2
  const ATYPE_IPV4: byte := 1
  const ATYPE_DOMAIN: byte := 3
  const ATYPE_IPV6: byte := 4
  const MAX_UDP_PAYLOAD: nat := 65000
  const MAX_DOMAIN: nat := 253
  const U16_MAX: nat := 0xFFFF

  type u16 = n: int | 0 <= n <= 0xFFFF
  type Ip4 = a: bytes | |a| == 4 witness [0, 0, 0, 0]
  type Ip6 = a: bytes | |a| == 16 ghost witness Zeros(16)

  datatype FrameTarget = Ipv4(ip4: Ip4, port: u16) | Domain(name: bytes, port: u16) | Ipv6(ip6: Ip6, port: u16)

  datatype FrameFault =
    | StreamEnded | UnsupportedCmd | UnknownAtype | Short | ZeroLengthDomain | NotUtf8
    | DomainLength | PayloadTooLarge | FrameTooLarge | TotalTooSmall | TruncatedDlen | DlenMismatch

  // ----- Building -----------------------------------------------------------

  function Atype(t: FrameTarget): byte {
    match t
    case Ipv4(_, _) => ATYPE_IPV4
    case Ipv6(_, _) => ATYPE_IPV6
    case Domain(_, _) => ATYPE_DOMAIN
  }

  /** Address and port; a domain carries its length modulo 256. */
  function AddrPort(t: FrameTarget): bytes {
    match t
    case Ipv4(a, port) => a + Be(port, 2)
    case Ipv6(a, port) => a + Be(port, 2)
    case Domain(d, port) => [(|d| % 256) as byte] + d + Be(port, 2)
  }

  predicate Buildable(t: FrameTarget) {
    t.Domain? ==> 1 <= |t.name| <= MAX_DOMAIN
  }

  function BuildRequest(t: FrameTarget): Result<bytes, FrameFault> {
    if !Buildable(t) then Failure(DomainLength) else Success([CMD_TCP_CONNECT, Atype(t)] + AddrPort(t))
  }

  function BuildUdpAssociate(addr: Ip4, port: u16): bytes {
    [CMD_UDP_ASSOCIATE, ATYPE_IPV4] + addr + Be(port, 2)
  }

  function BuildUdpDatagram(t: FrameTarget, payload: bytes): Result<bytes, FrameFault> {
    if |payload| > MAX_UDP_PAYLOAD then Failure(PayloadTooLarge)
    else if !Buildable(t) then Failure(DomainLength)
    else
      var addrPart := [Atype(t)] + AddrPort(t);
      var total := |addrPart| + 2 + |payload|;
      if total > U16_MAX then Failure(FrameTooLarge)
      else Success(Be(total, 2) + addrPart + Be(|payload|, 2) + payload)
  }

  // ----- The slice parser ---------------------------------------------------

  /** The two bytes at `i` as a big-endian number. */
  function U16At(buf: bytes, i: nat): (n: u16)
    requires i + 2 <= |buf|
  {
    RadixValues();
    FromBe(buf[i..i + 2])
  }

  /** Address and port at the front of `buf`, and how many bytes they take. */
  function ParseAddrPort(utf8: bytes -> bool, buf: bytes, atype: byte): (r: Result<(FrameTarget, nat), FrameFault>)
    ensures r.Success? ==> r.value.1 <= |buf|
  {
    if atype == ATYPE_IPV4 then
      if |buf| < 6 then Failure(Short) else Success((Ipv4(buf[..4], U16At(buf, 4)), 6))
    else if atype == ATYPE_IPV6 then
      if |buf| < 18 then Failure(Short) else Success((Ipv6(buf[..16], U16At(buf, 16)), 18))
    else if atype == ATYPE_DOMAIN then
      if buf == [] then Failure(Short)
      else
        var len := buf[0] as nat;
        if len == 0 then Failure(ZeroLengthDomain)
        else if |buf| < 1 + len + 2 then Failure(Short)
        else if !utf8(buf[1..1 + len]) then Failure(NotUtf8)
        else Success((Domain(buf[1..1 + len], U16At(buf, 1 + len)), 1 + len + 2))
    else Failure(UnknownAtype)
  }

  // ----- The incremental parser ---------------------------------------------

  method ReadPort(reader: ByteSource) returns (r: Result<u16, FrameFault>)
    modifies reader
    ensures if |old(reader.rest)| < 2 then r.Failure?
            else r == Success(U16At(old(reader.rest), 0)) && reader.rest == old(reader.rest)[2..]
  {
    ghost var before := reader.rest;
    var p := reader.ReadExact(2);
    if p.Failure? {
      return Failure(StreamEnded);
    }
    assert before[0..2] == p.value[0..2];
    r := Success(U16At(p.value, 0));
  }

  method ReadDomain(utf8: bytes -> bool, reader: ByteSource) returns (r: Result<FrameTarget, FrameFault>)
    modifies reader
    ensures var slice := ParseAddrPort(utf8, old(reader.rest), ATYPE_DOMAIN);
            && (r.Success? <==> slice.Success?)
            && (r.Success? ==> r.value == slice.value.0 && reader.rest == old(reader.rest)[slice.value.1..])
  {
    hide FromBe;
    ghost var input := reader.rest;
    var lenBuf := reader.ReadExact(1);
    if lenBuf.Failure? {
      return Failure(StreamEnded);
    }
    var len := lenBuf.value[0] as nat;
    if len == 0 {
      return Failure(ZeroLengthDomain);
    }
    var name := reader.ReadExact(len);
    if name.Failure? {
      return Failure(StreamEnded);
    }
    assert name.value == input[1..1 + len] && reader.rest == input[1 + len..];
    if !utf8(name.value) {
      return Failure(NotUtf8);
    }
    assert |input| >= 1 + len + 2 ==> reader.rest[0..2] == input[1 + len..1 + len + 2];
    var p := ReadPort(reader);
    if p.Failure? {
      return Failure(p.error);
    }
    assert reader.rest == input[1 + len + 2..];
    r := Success(Domain(name.value, p.value));
  }

  /** Reading field by field from a stream accepts the same inputs as parsing a slice, with the same target, and
      takes the same bytes. */
  method ReadAddrPort(utf8: bytes -> bool, reader: ByteSource, atype: byte) returns (r: Result<FrameTarget, FrameFault>)
    modifies reader
    ensures var slice := ParseAddrPort(utf8, old(reader.rest), atype);
            && (r.Success? <==> slice.Success?)
            && (r.Success? ==> r.value == slice.value.0 && reader.rest == old(reader.rest)[slice.value.1..])
  {
    hide FromBe;
    ghost var input := reader.rest;
    if atype == ATYPE_IPV4 {
      var a := reader.ReadExact(4);
      if a.Failure? {
        return Failure(StreamEnded);
      }
      assert |input| >= 6 ==> reader.rest[0..2] == input[4..6];
      var p := ReadPort(reader);
      if p.Failure? {
        return Failure(p.error);
      }
      r := Success(Ipv4(a.value, p.value));
    } else if atype == ATYPE_IPV6 {
      var a := reader.ReadExact(16);
      if a.Failure? {
        return Failure(StreamEnded);
      }
      assert |input| >= 18 ==> reader.rest[0..2] == input[16..18];
      var p := ReadPort(reader);
      if p.Failure? {
        return Failure(p.error);
      }
      r := Success(Ipv6(a.value, p.value));
    } else if atype == ATYPE_DOMAIN {
      r := ReadDomain(utf8, reader);
    } else {
      r := Failure(UnknownAtype);
    }
  }

  /** Command, target and length of the request at the front of `input`. */
  function RequestAt(utf8: bytes -> bool, input: bytes): Option<(byte, FrameTarget, nat)> {
    if |input| < 2 || (input[0] != CMD_TCP_CONNECT && input[0] != CMD_UDP_ASSOCIATE) then None
    else
      var target := ParseAddrPort(utf8, input[2..], input[1]);
      if target.Failure? then None else Some((input[0], target.value.0, 2 + target.value.1))
  }

  method ReadRequestFull(utf8: bytes -> bool, reader: ByteSource) returns (r: Result<(byte, FrameTarget), FrameFault>)
    modifies reader
    ensures var request := RequestAt(utf8, old(reader.rest));
            && (r.Success? <==> request.Some?)
            && (r.Success? ==> r.value == (request.value.0, request.value.1)
                               && reader.rest == old(reader.rest)[request.value.2..])
  {
    hide ParseAddrPort;
    ghost var input := reader.rest;
    var hdr := reader.ReadExact(2);
    if hdr.Failure? {
      return Failure(StreamEnded);
    }
    var cmd, atype := hdr.value[0], hdr.value[1];
    if cmd != CMD_TCP_CONNECT && cmd != CMD_UDP_ASSOCIATE {
      return Failure(UnsupportedCmd);
    }
    var target := ReadAddrPort(utf8, reader, atype);
    if target.Failure? {
      return Failure(target.error);
    }
    assert forall n :: 0 <= n <= |input| - 2 ==> input[2..][n..] == input[2 + n..];
    r := Success((cmd, target.value));
  }

  // ----- Parsing inverts building -------------------------------------------

  lemma U16Inverse(n: u16, before: bytes, behind: bytes)
    ensures U16At(before + Be(n, 2) + behind, |before|) == n
  {
    hide FromBe, Be;
    RadixValues();
    BeRoundTrip(n, 2);
    Middle(before, Be(n, 2), behind);
  }

  lemma U16Unique(buf: bytes, i: nat)
    requires i + 2 <= |buf|
    ensures Be(U16At(buf, i), 2) == buf[i..i + 2]
  {
    BeInjective(buf[i..i + 2]);
  }

  ghost predicate Parsable(utf8: bytes -> bool, t: FrameTarget) {
    t.Domain? ==> 1 <= |t.name| <= 255 && utf8(t.name)
  }

  lemma ParseInverse(utf8: bytes -> bool, t: FrameTarget, behind: bytes)
    requires Parsable(utf8, t)
    ensures ParseAddrPort(utf8, AddrPort(t) + behind, Atype(t)) == Success((t, |AddrPort(t)|))
  {
    hide FromBe, Be, U16At;
    match t
    case Ipv4(a, port) =>
      U16Inverse(port, a, behind);
      assert (a + Be(port, 2) + behind)[..4] == a;
    case Ipv6(a, port) =>
      U16Inverse(port, a, behind);
      assert (a + Be(port, 2) + behind)[..16] == a;
    case Domain(d, port) =>
      U16Inverse(port, [|d| as byte] + d, behind);
      assert ([|d| as byte] + d + Be(port, 2) + behind)[1..1 + |d|] == d;
  }

  /** Whatever parses is exactly what its target is written as. */
  lemma ParseUnique(utf8: bytes -> bool, buf: bytes, atype: byte)
    ensures var r := ParseAddrPort(utf8, buf, atype);
            r.Success? ==> && Parsable(utf8, r.value.0) && atype == Atype(r.value.0)
                           && buf[..r.value.1] == AddrPort(r.value.0)
  {
    hide FromBe, Be, U16At;
    var r := ParseAddrPort(utf8, buf, atype);
    if r.Success? {
      var n := r.value.1;
      U16Unique(buf, n - 2);
      assert buf[..n] == buf[..n - 2] + buf[n - 2..n];
      if atype == ATYPE_DOMAIN {
        assert buf[..n - 2] == [buf[0]] + buf[1..n - 2];
      }
    }
  }

  /** A request that builds is read back with its target, and the bytes behind it stay in the stream. */
  lemma RequestRoundTrip(utf8: bytes -> bool, t: FrameTarget, behind: bytes)
    requires Buildable(t) && (t.Domain? ==> utf8(t.name))
    ensures BuildRequest(t).Success?
    ensures var wire := BuildRequest(t).value;
            RequestAt(utf8, wire + behind) == Some((CMD_TCP_CONNECT, t, |wire|))
  {
    hide ParseAddrPort, AddrPort, Atype;
    var wire := BuildRequest(t).value;
    assert (wire + behind)[2..] == AddrPort(t) + behind;
    ParseInverse(utf8, t, behind);
  }

  /** A request is read exactly if one of the two commands and a parsable address are in front of the stream. */
  lemma RequestIff(utf8: bytes -> bool, input: bytes, cmd: byte, t: FrameTarget, n: nat)
    ensures RequestAt(utf8, input) == Some((cmd, t, n))
        <==> && (cmd == 0x01 || cmd == 0x02) && Parsable(utf8, t) && n == 2 + |AddrPort(t)|
             && [cmd, Atype(t)] + AddrPort(t) <= input
  {
    hide ParseAddrPort, AddrPort, Atype, Parsable;
    var wire := [cmd, Atype(t)] + AddrPort(t);
    if wire <= input && Parsable(utf8, t) {
      var behind := input[|wire|..];
      assert input == wire + behind;
      assert input[2..] == AddrPort(t) + behind;
      ParseInverse(utf8, t, behind);
    }
    if RequestAt(utf8, input) == Some((cmd, t, n)) {
      ParseUnique(utf8, input[2..], input[1]);
      assert input[..n] == [input[0], input[1]] + input[2..][..n - 2];
    }
  }

  lemma UdpAssociateRoundTrip(utf8: bytes -> bool, addr: Ip4, port: u16, behind: bytes)
    ensures var wire := BuildUdpAssociate(addr, port);
            RequestAt(utf8, wire + behind) == Some((CMD_UDP_ASSOCIATE, Ipv4(addr, port), |wire|))
  {
    hide ParseAddrPort, Be;
    var wire := BuildUdpAssociate(addr, port);
    assert (wire + behind)[2..] == AddrPort(Ipv4(addr, port)) + behind;
    ParseInverse(utf8, Ipv4(addr, port), behind);
  }

  /** Requests, byte for byte: command, kind of address, address, port. */
  lemma RequestBytes(a: Ip4, b: Ip6, d: bytes, port: u16)
    ensures var p := [(port / 0x100) as byte, (port % 0x100) as byte];
            && BuildRequest(Ipv4(a, port)) == Success([0x01, 0x01] + (a + p))
            && BuildRequest(Ipv6(b, port)) == Success([0x01, 0x04] + (b + p))
            && (1 <= |d| <= 253 ==> BuildRequest(Domain(d, port)) == Success([0x01, 0x03] + ([|d| as byte] + d + p)))
            && BuildUdpAssociate(a, port) == [0x02, 0x01] + a + p
  {
    BeTwo(port);
  }
}
