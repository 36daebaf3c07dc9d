/** RLPx frames (section "Framing" of the devp2p RLPx specification). */
module Framing {
  import opened Wrappers
  import opened Bytes
  import opened RlpxPrimitives
  import opened ByteSource

  const HEADER_LEN: nat := 16
  const MAC_LEN: nat := 16
  const FRAME_LIMIT: nat := 0x100_0000
  const OVERHEAD: nat := HEADER_LEN + MAC_LEN + MAC_LEN

  /** The fields of a `FrameState`; the running MAC is the bytes absorbed so far. */
  datatype Frames = Frames(aesKey: bytes, position: nat, macKey: bytes, absorbed: bytes)

  datatype FrameError = HeaderMacMismatch | FrameMacMismatch | FrameTooShort | StreamEnded

  /** `(n + 15) & !15` */
  function Padded(n: nat): (r: nat)
    ensures r % 16 == 0 && n <= r < n + 16
  {
    (n + 15) / 16 * 16
  }

  /** The bit mask of the source is this division, for every length below the overflow of the sum. */
  lemma PaddedMask(n: bv64)
    requires n <= 0xFFFF_FFFF_FFFF_FFF0
    ensures (n + 15) & !15 == (n + 15) / 16 * 16
  {
  }

  // ----- What each method does to the fields --------------------------------

  function Digest16(p: Primitives, absorbed: bytes): (r: bytes)
    ensures |r| == MAC_LEN
  {
    p.keccak(absorbed)[..MAC_LEN]
  }

  /** AES-CTR over `data`, advancing the key stream. */
  function Keyed(p: Primitives, s: Frames, data: bytes): (r: (Frames, bytes))
    ensures |r.1| == |data|
  {
    (s.(position := s.position + |data|), Xor(data, KeyStream(p, s.aesKey, Zeros(16), s.position, |data|)))
  }

  function HeaderMac(p: Primitives, s: Frames, headerCt: bytes): (r: (Frames, bytes))
    requires |headerCt| == HEADER_LEN
    ensures |r.1| == MAC_LEN
  {
    var seed := Xor(p.aes(s.macKey, Digest16(p, s.absorbed)), headerCt);
    var after := s.(absorbed := s.absorbed + seed);
    (after, Digest16(p, after.absorbed))
  }

  function FrameMac(p: Primitives, s: Frames): (r: (Frames, bytes))
    ensures |r.1| == MAC_LEN
  {
    var digest := Digest16(p, s.absorbed);
    var after := s.(absorbed := s.absorbed + Xor(digest, p.aes(s.macKey, digest)));
    (after, Digest16(p, after.absorbed))
  }

  function Absorb(s: Frames, data: bytes): Frames {
    s.(absorbed := s.absorbed + data)
  }

  function Header(n: nat): (r: bytes)
    ensures |r| == HEADER_LEN
  {
    Be(n, 3) + Zeros(13)
  }

  function Encoded(p: Primitives, s: Frames, data: bytes): (Frames, bytes) {
    var (s1, header) := Keyed(p, s, Header(|data|));
    var (s2, headerMac) := HeaderMac(p, s1, header);
    var (s3, frame) := Keyed(p, s2, data + Zeros(Padded(|data|) - |data|));
    var (s4, frameMac) := FrameMac(p, Absorb(s3, frame));
    (s4, header + headerMac + frame + frameMac)
  }

  lemma EncodedSize(p: Primitives, s: Frames, data: bytes)
    ensures |Encoded(p, s, data).1| == OVERHEAD + Padded(|data|)
  {
    hide HeaderMac, FrameMac, Keyed;
  }

  /** A mismatch leaves the MAC updated and the key stream where it was. */
  function HeaderDecoded(p: Primitives, s: Frames, wire: bytes): (Frames, Result<nat, FrameError>)
    requires |wire| == HEADER_LEN + MAC_LEN
  {
    var (s1, computed) := HeaderMac(p, s, wire[..HEADER_LEN]);
    if computed != wire[HEADER_LEN..] then (s1, Failure(HeaderMacMismatch))
    else
      var (s2, header) := Keyed(p, s1, wire[..HEADER_LEN]);
      (s2, Success(FromBe(header[..3])))
  }

  function DataDecoded(p: Primitives, s: Frames, wire: bytes, frameSize: nat): (Frames, Result<bytes, FrameError>) {
    if |wire| < MAC_LEN then (s, Failure(FrameTooShort))
    else
      var frame, expected := wire[..|wire| - MAC_LEN], wire[|wire| - MAC_LEN..];
      var (s1, computed) := FrameMac(p, Absorb(s, frame));
      if computed != expected then (s1, Failure(FrameMacMismatch))
      else
        var (s2, text) := Keyed(p, s1, frame);
        (s2, Success(if frameSize <= |text| then text[..frameSize] else text))
  }

  /** One `recv_frame` on a stream: the fields, the outcome and the bytes left. */
  function Received(p: Primitives, s: Frames, input: bytes): (Frames, Result<bytes, FrameError>, bytes) {
    if |input| < HEADER_LEN + MAC_LEN then (s, Failure(StreamEnded), [])
    else
      var rest := input[HEADER_LEN + MAC_LEN..];
      var (s1, size) := HeaderDecoded(p, s, input[..HEADER_LEN + MAC_LEN]);
      if size.Failure? then (s1, Failure(size.error), rest)
      else
        var n := Padded(size.value) + MAC_LEN;
        if |rest| < n then (s1, Failure(StreamEnded), [])
        else
          var (s2, data) := DataDecoded(p, s1, rest[..n], size.value);
          (s2, data, rest[n..])
  }

  class FrameState {
    const p: Primitives
    const aesKey: bytes
    const macKey: bytes
    var position: nat      // of the AES-CTR key stream
    var absorbed: bytes    // by the running Keccak MAC

    ghost function State(): Frames
      reads this
    {
      Frames(aesKey, position, macKey, absorbed)
    }

    constructor (p: Primitives, aesSecret: bytes, macSecret: bytes, macInit: bytes)
      ensures this.p == p && State() == Frames(aesSecret, 0, macSecret, macInit)
    {
      this.p, aesKey, macKey, position, absorbed := p, aesSecret, macSecret, 0, macInit;
    }

    method ApplyKeystream(data: bytes) returns (r: bytes)
      modifies `position
      ensures (State(), r) == Keyed(p, old(State()), data)
    {
      r := Xor(data, KeyStream(p, aesKey, Zeros(16), position, |data|));
      position := position + |data|;
    }

    method UpdateHeaderMac(headerCt: bytes) returns (mac: bytes)
      requires |headerCt| == HEADER_LEN
      modifies `absorbed
      ensures (State(), mac) == HeaderMac(p, old(State()), headerCt)
    {
      var digest := p.keccak(absorbed)[..MAC_LEN];
      var seed := Xor(p.aes(macKey, digest), headerCt);
      absorbed := absorbed + seed;
      mac := p.keccak(absorbed)[..MAC_LEN];
    }

    method UpdateFrameMac() returns (mac: bytes)
      modifies `absorbed
      ensures (State(), mac) == FrameMac(p, old(State()))
    {
      var digest := p.keccak(absorbed)[..MAC_LEN];
      var seed := Xor(digest, p.aes(macKey, digest));
      absorbed := absorbed + seed;
      mac := p.keccak(absorbed)[..MAC_LEN];
    }

    method EncodeFrame(data: bytes) returns (wire: bytes)
      modifies this
      ensures (State(), wire) == Encoded(p, old(State()), data)
    {
      hide Keyed, HeaderMac, FrameMac;
      var header := ApplyKeystream(Header(|data|));
      var headerMac := UpdateHeaderMac(header);
      var frame := ApplyKeystream(data + Zeros(Padded(|data|) - |data|));
      absorbed := absorbed + frame;
      var frameMac := UpdateFrameMac();
      wire := header + headerMac + frame + frameMac;
    }

    method DecodeFrameHeader(wire: bytes) returns (r: Result<nat, FrameError>)
      requires |wire| == HEADER_LEN + MAC_LEN
      modifies this
      ensures (State(), r) == HeaderDecoded(p, old(State()), wire)
    {
      hide Keyed, HeaderMac;
      var computed := UpdateHeaderMac(wire[..HEADER_LEN]);
      if computed != wire[HEADER_LEN..] {
        return Failure(HeaderMacMismatch);
      }
      var header := ApplyKeystream(wire[..HEADER_LEN]);
      r := Success(FromBe(header[..3]));
    }

    method DecodeFrameData(wire: bytes, frameSize: nat) returns (r: Result<bytes, FrameError>)
      modifies this
      ensures (State(), r) == DataDecoded(p, old(State()), wire, frameSize)
    {
      hide Keyed, FrameMac;
      if |wire| < MAC_LEN {
        return Failure(FrameTooShort);
      }
      var frame, expected := wire[..|wire| - MAC_LEN], wire[|wire| - MAC_LEN..];
      absorbed := absorbed + frame;
      var computed := UpdateFrameMac();
      if computed != expected {
        return Failure(FrameMacMismatch);
      }
      var text := ApplyKeystream(frame);
      r := Success(if frameSize <= |text| then text[..frameSize] else text);
    }
  }

  /** `recv_frame` */
  method RecvFrame(stream: ByteSource, ingress: FrameState) returns (r: Result<bytes, FrameError>)
    modifies stream, ingress
    ensures (ingress.State(), r, stream.rest) == Received(ingress.p, old(ingress.State()), old(stream.rest))
  {
    hide HeaderDecoded, DataDecoded;
    var header := stream.ReadExact(HEADER_LEN + MAC_LEN);
    if header.Failure? {
      return Failure(StreamEnded);
    }
    var size := ingress.DecodeFrameHeader(header.value);
    if size.Failure? {
      return Failure(size.error);
    }
    var body := stream.ReadExact(Padded(size.value) + MAC_LEN);
    if body.Failure? {
      return Failure(StreamEnded);
    }
    r := ingress.DecodeFrameData(body.value, size.value);
  }

  lemma ReceivedShort(p: Primitives, s: Frames, part: bytes)
    requires |part| < HEADER_LEN + MAC_LEN
    ensures Received(p, s, part) == (s, Failure(StreamEnded), [])
  {
  }

  /** A header and what follows it, in terms of the two decoders. */
  lemma ReceivedParts(p: Primitives, s: Frames, header: bytes, more: bytes)
    requires |header| == HEADER_LEN + MAC_LEN
    ensures var (s1, size) := HeaderDecoded(p, s, header);
            Received(p, s, header + more)
            == if size.Failure? then (s1, Failure(size.error), more)
               else
                 var n := Padded(size.value) + MAC_LEN;
                 if |more| < n then (s1, Failure(StreamEnded), [])
                 else
                   var (s2, data) := DataDecoded(p, s1, more[..n], size.value);
                   (s2, data, more[n..])
  {
    hide HeaderDecoded, DataDecoded;
    assert (header + more)[..HEADER_LEN + MAC_LEN] == header && (header + more)[HEADER_LEN + MAC_LEN..] == more;
  }

  // ----- Encoder and decoder in lockstep ------------------------------------

  /** The part of a frame before its data, and the fields behind it. */
  function HeaderEncoded(p: Primitives, s: Frames, n: nat): (r: (Frames, bytes))
    ensures |r.1| == HEADER_LEN + MAC_LEN
  {
    var (s1, header) := Keyed(p, s, Header(n));
    var (s2, headerMac) := HeaderMac(p, s1, header);
    (s2, header + headerMac)
  }

  function DataEncoded(p: Primitives, s: Frames, data: bytes): (r: (Frames, bytes))
    ensures |r.1| == Padded(|data|) + MAC_LEN
  {
    var (s3, frame) := Keyed(p, s, data + Zeros(Padded(|data|) - |data|));
    var (s4, frameMac) := FrameMac(p, Absorb(s3, frame));
    (s4, frame + frameMac)
  }

  lemma EncodedParts(p: Primitives, s: Frames, data: bytes)
    ensures var (s2, header) := HeaderEncoded(p, s, |data|);
            var (s4, body) := DataEncoded(p, s2, data);
            Encoded(p, s, data) == (s4, header + body)
  {
    hide Keyed, HeaderMac, FrameMac;
    var (s1, header) := Keyed(p, s, Header(|data|));
    var (s2, headerMac) := HeaderMac(p, s1, header);
    var (s3, frame) := Keyed(p, s2, data + Zeros(Padded(|data|) - |data|));
    var (s4, frameMac) := FrameMac(p, Absorb(s3, frame));
    assert header + headerMac + frame + frameMac == (header + headerMac) + (frame + frameMac);
  }

  lemma KeyedTwice(p: Primitives, s: Frames, t: Frames, data: bytes)
    requires s.aesKey == t.aesKey && s.position == t.position
    ensures Keyed(p, t, Keyed(p, s, data).1) == (t.(position := t.position + |data|), data)
  {
    XorTwice(data, KeyStream(p, s.aesKey, Zeros(16), s.position, |data|));
  }

  lemma KeyedState(p: Primitives, s: Frames, data: bytes)
    ensures Keyed(p, s, data).0 == s.(position := s.position + |data|)
  {
  }

  /** The decoder gets the size modulo 2^24, and both sides are in the same state behind the header. */
  lemma HeaderLockstep(p: Primitives, s: Frames, n: nat)
    ensures var (t, wire) := HeaderEncoded(p, s, n);
            HeaderDecoded(p, s, wire) == (t, Success(n % FRAME_LIMIT))
  {
    hide Keyed;
    var (s1, header) := Keyed(p, s, Header(n));
    var (t, wire) := HeaderEncoded(p, s, n);
    assert s1 == s.(position := s.position + HEADER_LEN) by {
      KeyedTwice(p, s, s, Header(n));
      KeyedState(p, s, Header(n));
    }
    assert wire[..HEADER_LEN] == header;
    var d := HeaderMac(p, s, header).0;
    KeyedTwice(p, s, d, Header(n));
    assert Header(n)[..3] == Be(n, 3);
    BeRoundTrip(n, 3);
    RadixValues();
  }

  lemma DataLockstep(p: Primitives, s: Frames, data: bytes)
    ensures var (t, wire) := DataEncoded(p, s, data);
            DataDecoded(p, s, wire, |data|) == (t, Success(data))
  {
    hide Keyed;
    var padded := data + Zeros(Padded(|data|) - |data|);
    var (s1, frame) := Keyed(p, s, padded);
    KeyedState(p, s, padded);
    var (t, wire) := DataEncoded(p, s, data);
    assert wire[..|wire| - MAC_LEN] == frame;
    KeyedTwice(p, s, FrameMac(p, Absorb(s, frame)).0, padded);
    assert padded[..|data|] == data;
  }

  /** A frame is received as sent, leaving exactly the bytes behind it, and then the receiver's key stream
      position and MAC equal the sender's. */
  lemma FrameLockstep(p: Primitives, s: Frames, data: bytes, behind: bytes)
    requires |data| < FRAME_LIMIT
    ensures var (t, wire) := Encoded(p, s, data);
            Received(p, s, wire + behind) == (t, Success(data), behind)
  {
    hide HeaderEncoded, DataEncoded, HeaderDecoded, DataDecoded, Encoded, Received, Padded;
    EncodedParts(p, s, data);
    HeaderLockstep(p, s, |data|);
    var (s2, header) := HeaderEncoded(p, s, |data|);
    var (s4, body) := DataEncoded(p, s2, data);
    DataLockstep(p, s2, data);
    ReceivedParts(p, s, header, body + behind);
    assert (header + body) + behind == header + (body + behind);
    assert (body + behind)[..|body|] == body && (body + behind)[|body|..] == behind;
  }

  /** A receiver that has got only part of a frame waits for the rest: it neither fails nor returns data. */
  lemma PartialFrame(p: Primitives, s: Frames, data: bytes, part: bytes)
    requires |data| < FRAME_LIMIT
    requires part <= Encoded(p, s, data).1 && part != Encoded(p, s, data).1
    ensures Received(p, s, part).1 == Failure(StreamEnded)
  {
    hide HeaderEncoded, DataEncoded, HeaderDecoded, DataDecoded, Encoded, Received, Padded;
    EncodedParts(p, s, data);
    HeaderLockstep(p, s, |data|);
    var (s2, header) := HeaderEncoded(p, s, |data|);
    if |part| < |header| {
      ReceivedShort(p, s, part);
    } else {
      assert part[..|header|] == (header + DataEncoded(p, s2, data).1)[..|header|] == header;
      ReceivedParts(p, s, header, part[|header|..]);
      assert part == header + part[|header|..];
    }
  }

  lemma LongFrame(p: Primitives, s: Frames, data: bytes, behind: bytes)
    requires |data| >= FRAME_LIMIT
    ensures Received(p, s, Encoded(p, s, data).1 + behind).1 != Success(data)
  {
  }

  /** The three-byte size field limits what can travel: a frame comes back as sent exactly when it is shorter
      than 2^24 bytes, although `encode_frame` accepts any length. */
  lemma FrameReturnsIff(p: Primitives, s: Frames, data: bytes, behind: bytes)
    ensures Received(p, s, Encoded(p, s, data).1 + behind).1 == Success(data) <==> |data| < FRAME_LIMIT
  {
    if |data| < FRAME_LIMIT {
      FrameLockstep(p, s, data, behind);
    } else {
      LongFrame(p, s, data, behind);
    }
  }

  function SendAll(p: Primitives, s: Frames, frames: seq<bytes>): (Frames, bytes)
    decreases frames
  {
    if frames == [] then (s, [])
    else
      var (t, wire) := Encoded(p, s, frames[0]);
      var (u, rest) := SendAll(p, t, frames[1..]);
      (u, wire + rest)
  }

  lemma {:induction false} SendSnoc(p: Primitives, s: Frames, frames: seq<bytes>, data: bytes)
    ensures var (t, wire) := SendAll(p, s, frames);
            var (u, last) := Encoded(p, t, data);
            SendAll(p, s, frames + [data]) == (u, wire + last)
    decreases frames
  {
    hide Encoded;
    if frames == [] {
      assert frames + [data] == [data];
      var (u, last) := Encoded(p, s, data);
      assert SendAll(p, u, [data][1..]) == (u, []);
      assert last + [] == last == [] + last;
    } else {
      assert (frames + [data])[1..] == frames[1..] + [data];
      var (t, first) := Encoded(p, s, frames[0]);
      SendSnoc(p, t, frames[1..], data);
      var (u, rest) := SendAll(p, t, frames[1..]);
      assert first + (rest + Encoded(p, u, data).1) == (first + rest) + Encoded(p, u, data).1;
    }
  }

  /** Receives `n` frames from a stream, giving up at the first error. */
  function ReceiveAll(p: Primitives, s: Frames, input: bytes, n: nat): (Frames, Result<seq<bytes>, FrameError>, bytes)
    decreases n
  {
    if n == 0 then (s, Success([]), input)
    else
      var (t, data, rest) := Received(p, s, input);
      if data.Failure? then (t, Failure(data.error), rest)
      else
        var (u, more, left) := ReceiveAll(p, t, rest, n - 1);
        (u, if more.Failure? then more else Success([data.value] + more.value), left)
  }

  ghost predicate AllShort(frames: seq<bytes>) {
    forall i :: 0 <= i < |frames| ==> |frames[i]| < FRAME_LIMIT
  }

  /** Any sequence of frames arrives as sent, and encoder and decoder end in the same state. */
  lemma {:induction false} Lockstep(p: Primitives, s: Frames, frames: seq<bytes>, behind: bytes)
    requires AllShort(frames)
    ensures var (t, wire) := SendAll(p, s, frames);
            ReceiveAll(p, s, wire + behind, |frames|) == (t, Success(frames), behind)
    decreases frames
  {
    hide Encoded, Received;
    if frames == [] {
      assert [] + behind == behind;
    } else {
      var (t, wire) := Encoded(p, s, frames[0]);
      var (u, rest) := SendAll(p, t, frames[1..]);
      FrameLockstep(p, s, frames[0], rest + behind);
      Lockstep(p, t, frames[1..], behind);
      assert (wire + rest) + behind == wire + (rest + behind);
      assert [frames[0]] + frames[1..] == frames;
    }
  }

  /** A sequence of frames comes back exactly when each of them is shorter than 2^24 bytes. */
  lemma {:induction false} LockstepIff(p: Primitives, s: Frames, frames: seq<bytes>, behind: bytes)
    ensures ReceiveAll(p, s, SendAll(p, s, frames).1 + behind, |frames|).1 == Success(frames)
            <==> AllShort(frames)
    decreases frames
  {
    hide Encoded, Received;
    if frames == [] {
      assert [] + behind == behind;
    } else {
      var (t, wire) := Encoded(p, s, frames[0]);
      var (u, rest) := SendAll(p, t, frames[1..]);
      assert (wire + rest) + behind == wire + (rest + behind);
      FrameReturnsIff(p, s, frames[0], rest + behind);
      assert [frames[0]] + frames[1..] == frames;
      if |frames[0]| < FRAME_LIMIT {
        FrameLockstep(p, s, frames[0], rest + behind);
        LockstepIff(p, t, frames[1..], behind);
        assert AllShort(frames) <==> AllShort(frames[1..]) by {
          assert forall i :: 0 < i < |frames| ==> frames[i] == frames[1..][i - 1];
        }
      }
    }
  }

  // ----- What goes on the wire ----------------------------------------------

  /** The tag behind a header: the MAC takes in its digest under AES, combined with the encrypted header. */
  function HeaderTag(p: Primitives, macKey: bytes, absorbed: bytes, header: bytes): bytes
    requires |header| == 16
  {
    p.keccak(absorbed + Xor(p.aes(macKey, p.keccak(absorbed)[..16]), header))[..16]
  }

  /** The tag behind a frame: the MAC takes in the encrypted frame, and then its digest combined with that under AES. */
  function FrameTag(p: Primitives, macKey: bytes, absorbed: bytes, frame: bytes): bytes {
    var digest := p.keccak(absorbed + frame)[..16];
    p.keccak(absorbed + frame + Xor(digest, p.aes(macKey, digest)))[..16]
  }

  /** What one frame adds to the input of the MAC. */
  function Absorbed(p: Primitives, s: Frames, header: bytes, frame: bytes): bytes
    requires |header| == 16
  {
    var mid := s.absorbed + Xor(p.aes(s.macKey, p.keccak(s.absorbed)[..16]), header);
    var digest := p.keccak(mid + frame)[..16];
    mid + frame + Xor(digest, p.aes(s.macKey, digest))
  }

  /** A frame as the devp2p specification writes it: size in three bytes and thirteen zeros, contents padded with zeros,
      both under one running AES-CTR key stream, each with its tag. */
  lemma EncodesAsDevp2p(p: Primitives, s: Frames, data: bytes)
    ensures var n := |data|;
            var size := [(n / 0x1_0000 % 256) as byte, (n / 0x100 % 256) as byte, (n % 256) as byte];
            var padded := data + Zeros(Padded(n) - n);
            var header := Xor(size + Zeros(13), KeyStream(p, s.aesKey, Zeros(16), s.position, 16));
            var frame := Xor(padded, KeyStream(p, s.aesKey, Zeros(16), s.position + 16, Padded(n)));
            var mid := s.absorbed + Xor(p.aes(s.macKey, p.keccak(s.absorbed)[..16]), header);
            Encoded(p, s, data)
            == (Frames(s.aesKey, s.position + 16 + Padded(n), s.macKey, Absorbed(p, s, header, frame)),
                header + HeaderTag(p, s.macKey, s.absorbed, header) + frame + FrameTag(p, s.macKey, mid, frame))
  {
    hide Xor, KeyStream;
    var n := |data|;
    BeThree(n);
  }

  /** A header is accepted exactly if this tag is behind it; a refused one leaves the key stream where it was. */
  lemma HeaderAcceptedIff(p: Primitives, s: Frames, wire: bytes)
    requires |wire| == HEADER_LEN + MAC_LEN
    ensures var (t, size) := HeaderDecoded(p, s, wire);
            && (size.Success? <==> wire[16..] == HeaderTag(p, s.macKey, s.absorbed, wire[..16]))
            && (size.Failure? ==> size == Failure(HeaderMacMismatch))
            && t.position == if size.Success? then s.position + 16 else s.position
  {
  }

  /** A frame is accepted exactly if this tag is behind it. */
  lemma FrameAcceptedIff(p: Primitives, s: Frames, frame: bytes, tag: bytes, size: nat)
    requires |tag| == MAC_LEN
    ensures var (t, data) := DataDecoded(p, s, frame + tag, size);
            && (data.Success? <==> tag == FrameTag(p, s.macKey, s.absorbed, frame))
            && (data.Failure? ==> data == Failure(FrameMacMismatch))
            && t.position == if data.Success? then s.position + |frame| else s.position
  {
    assert (frame + tag)[..|frame|] == frame && (frame + tag)[|frame|..] == tag;
  }

  lemma XorSwaps(a: bytes, k: bytes)
    requires |a| == |k|
    ensures Xor(a, k) == Xor(k, a)
  {
    forall i | 0 <= i < |a| ensures XorByte(a[i], k[i]) == XorByte(k[i], a[i]) {
      XorBitsSwap(8, a[i] as nat, k[i] as nat);
    }
  }

  lemma XorInjective(a: bytes, b: bytes, k: bytes)
    requires |a| == |b| == |k| && Xor(a, k) == Xor(b, k)
    ensures a == b
  {
    XorTwice(a, k);
    XorTwice(b, k);
  }

  lemma SameParts(a: bytes, x: bytes, b: bytes, y: bytes)
    requires |a| == |b| && a + x == b + y
    ensures a == b && x == y
  {
    assert (a + x)[..|a|] == a && (b + y)[..|b|] == b;
    assert (a + x)[|a|..] == x && (b + y)[|b|..] == y;
  }

  /** The MAC covers the header: encrypted headers that differ leave different inputs of the MAC. */
  lemma MacCoversHeader(p: Primitives, s: Frames, a: bytes, b: bytes)
    requires |a| == |b| == HEADER_LEN && a != b
    ensures HeaderMac(p, s, a).0.absorbed != HeaderMac(p, s, b).0.absorbed
  {
    hide Xor;
    var k := p.aes(s.macKey, Digest16(p, s.absorbed));
    if HeaderMac(p, s, a).0.absorbed == HeaderMac(p, s, b).0.absorbed {
      SameParts(s.absorbed, Xor(k, a), s.absorbed, Xor(k, b));
      XorSwaps(k, a);
      XorSwaps(k, b);
      XorInjective(a, b, k);
    }
  }

  /** And the frame, at the receiver. */
  lemma MacCoversFrame(p: Primitives, s: Frames, a: bytes, b: bytes, tag: bytes, size: nat)
    requires |a| == |b| && a != b && |tag| == MAC_LEN
    ensures DataDecoded(p, s, a + tag, size).0.absorbed != DataDecoded(p, s, b + tag, size).0.absorbed
  {
    hide Xor, KeyStream;
    assert (a + tag)[..|a|] == a && (b + tag)[..|b|] == b;
    var (s1, _) := FrameMac(p, Absorb(s, a));
    var (s2, _) := FrameMac(p, Absorb(s, b));
    if s1.absorbed == s2.absorbed {
      var x, y := s1.absorbed[|s.absorbed| + |a|..], s2.absorbed[|s.absorbed| + |b|..];
      assert s1.absorbed == (s.absorbed + a) + x && s2.absorbed == (s.absorbed + b) + y;
      SameParts(s.absorbed + a, x, s.absorbed + b, y);
      SameParts(s.absorbed, a, s.absorbed, b);
    }
  }

  lemma AbsorbedExtends(p: Primitives, s: Frames, data: bytes)
    ensures |s.absorbed| <= |Encoded(p, s, data).0.absorbed|
    ensures Encoded(p, s, data).0.absorbed[..|s.absorbed|] == s.absorbed
  {
    hide Xor, KeyStream;
  }

  lemma AbsorbedSize(p: Primitives, s: Frames, data: bytes)
    ensures |Encoded(p, s, data).0.absorbed| == |s.absorbed| + 32 + Padded(|data|)
  {
    hide Xor, KeyStream;
  }

  /** Behind what the header adds, the input of the MAC goes on with the encrypted frame. */
  lemma AbsorbedBehind(p: Primitives, s: Frames, data: bytes)
    ensures var padded := data + Zeros(Padded(|data|) - |data|);
            var frame := Xor(padded, KeyStream(p, s.aesKey, Zeros(16), s.position + 16, |padded|));
            var at, absorbed := |s.absorbed| + 16, Encoded(p, s, data).0.absorbed;
            at + |frame| <= |absorbed| && absorbed[at..at + |frame|] == frame
  {
    hide Xor, KeyStream, Padded;
    EncodesAsDevp2p(p, s, data);
  }

  /** Frames of one size that differ leave different inputs of the MAC. */
  lemma MacCoversContents(p: Primitives, s: Frames, a: bytes, b: bytes)
    requires |a| == |b| && a != b
    ensures Encoded(p, s, a).0.absorbed != Encoded(p, s, b).0.absorbed
  {
    hide Xor, KeyStream, Padded, Encoded;
    var pad := Zeros(Padded(|a|) - |a|);
    var k := KeyStream(p, s.aesKey, Zeros(16), s.position + 16, |a + pad|);
    AbsorbedBehind(p, s, a);
    AbsorbedBehind(p, s, b);
    if Encoded(p, s, a).0.absorbed == Encoded(p, s, b).0.absorbed {
      XorInjective(a + pad, b + pad, k);
      SameParts(a, pad, b, pad);
    }
  }

  lemma SentAbsorbed(p: Primitives, s: Frames, frames: seq<bytes>, data: bytes)
    ensures SendAll(p, s, frames + [data]).0 == Encoded(p, SendAll(p, s, frames).0, data).0
  {
    SendSnoc(p, s, frames, data);
  }

  ghost predicate SameSizes(a: seq<bytes>, b: seq<bytes>) {
    |a| == |b| && forall i :: 0 <= i < |a| ==> |a[i]| == |b[i]|
  }

  lemma {:induction false} SameAbsorbedSize(p: Primitives, s: Frames, a: seq<bytes>, b: seq<bytes>)
    requires SameSizes(a, b)
    ensures |SendAll(p, s, a).0.absorbed| == |SendAll(p, s, b).0.absorbed|
    decreases a
  {
    if a == [] {
    } else {
      hide Encoded, SendAll;
      var fa, fb := a[..|a| - 1], b[..|b| - 1];
      assert a == fa + [a[|a| - 1]] && b == fb + [b[|b| - 1]];
      SameAbsorbedSize(p, s, fa, fb);
      SentAbsorbed(p, s, fa, a[|a| - 1]);
      SentAbsorbed(p, s, fb, b[|b| - 1]);
      AbsorbedSize(p, SendAll(p, s, fa).0, a[|a| - 1]);
      AbsorbedSize(p, SendAll(p, s, fb).0, b[|b| - 1]);
    }
  }

  /** The running MAC covers everything sent so far: two series of frames of the same sizes that differ anywhere leave
      different inputs of the MAC, so every later tag is one of different inputs. */
  lemma {:induction false} MacCoversHistory(p: Primitives, s: Frames, a: seq<bytes>, b: seq<bytes>)
    requires SameSizes(a, b) && a != b
    ensures SendAll(p, s, a).0.absorbed != SendAll(p, s, b).0.absorbed
    decreases a
  {
    hide Encoded, SendAll;
    var fa, fb, la, lb := a[..|a| - 1], b[..|b| - 1], a[|a| - 1], b[|b| - 1];
    assert a == fa + [la] && b == fb + [lb];
    SentAbsorbed(p, s, fa, la);
    SentAbsorbed(p, s, fb, lb);
    if fa == fb {
      MacCoversContents(p, SendAll(p, s, fa).0, la, lb);
    } else {
      MacCoversHistory(p, s, fa, fb);
      SameAbsorbedSize(p, s, fa, fb);
      AbsorbedExtends(p, SendAll(p, s, fa).0, la);
      AbsorbedExtends(p, SendAll(p, s, fb).0, lb);
    }
  }
}
