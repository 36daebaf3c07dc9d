/** The blocking packet reader, `EncryptedStream::recv_packet`. */
module EncryptedStream {
  import opened Wrappers
  import opened Bytes
  import opened Bip324Primitives
  import opened FsChaCha20
  import opened FsChaCha20Poly1305
  import opened Packets
  import opened Receiving
  import opened Tcp
  import opened ByteSource

  class EncryptedStream {
    const p: Primitives
    const inner: ByteSource
    const recvL: FsChaCha20
    const recvP: FsChaCha20Poly1305

    ghost const recvStart: Ciphers
    ghost var packets: seq<bytes>

    constructor (p: Primitives, inner: ByteSource, recvL: FsChaCha20, recvP: FsChaCha20Poly1305)
      requires recvL.p == p && recvP.p == p && inner.taken == []
      ensures this.p == p && this.inner == inner && this.recvL == recvL && this.recvP == recvP
      ensures recvStart == Ciphers(recvL.State(), recvP.State()) && packets == []
      ensures Valid()
    {
      this.p, this.inner, this.recvL, this.recvP := p, inner, recvL, recvP;
      recvStart, packets := Ciphers(recvL.State(), recvP.State()), [];
    }

    /** What the byte-at-a-time receiver makes of the bytes taken so far. */
    ghost function Seen(): Receiver
      reads inner
    {
      Run(p, Between(recvStart, []), inner.taken)
    }

    /** The stream stands between two packets. */
    ghost predicate Valid()
      reads `packets, inner, recvL, recvP
    {
      && recvL.p == p && recvP.p == p
      && Seen() == Between(Ciphers(recvL.State(), recvP.State()), packets)
    }

    /** Reads and decrypts one packet, decoy or not. */
    method RecvOne() returns (r: Result<Received, IoError>)
      requires Valid()
      modifies inner, recvL, recvP, `packets
      ensures |inner.rest| < |old(inner.rest)| || r.Failure?
      ensures r.Success? ==> !r.value.BadTag? && Valid()
      ensures r.Success? ==> packets == if r.value.Contents? then old(packets) + [r.value.contents] else old(packets)
      ensures r.Failure? ==>
                packets == old(packets) == Seen().packets && (r.error == Authentication <==> Seen().failed)
      ensures r.Failure? && r.error != Authentication ==> inner.rest == []
    {
      hide Run, LengthReceived, ContentsReceived;
      ghost var before, start, idle := inner.taken, Between(recvStart, []), Seen();
      var encLen := inner.ReadExact(LENGTH_FIELD_LEN);
      ArriveLength(p, start, before, idle, inner.taken[|before|..]);
      assert inner.taken == before + inner.taken[|before|..];
      if encLen.Failure? {
        return Failure(encLen.error);
      }
      var aeadLen := ReceiveLength(recvL, encLen.value);
      ghost var middle, open := inner.taken, Seen();
      var body := inner.ReadExact(aeadLen);
      ArriveBody(p, start, middle, open, inner.taken[|middle|..]);
      assert inner.taken == middle + inner.taken[|middle|..];
      if body.Failure? {
        return Failure(body.error);
      }
      var received := ReceiveContents(recvP, body.value, []);
      if received.BadTag? {
        return Failure(Authentication);
      }
      if received.Contents? {
        packets := packets + [received.contents];
      }
      return Success(received);
    }

    /** Receives one packet, skipping decoys. It decrypts what the byte-at-a-time receiver decrypts. */
    method RecvPacket() returns (r: Result<bytes, IoError>)
      requires Valid()
      modifies inner, recvL, recvP, `packets
      ensures r.Success? ==> Valid() && packets == old(packets) + [r.value]
      ensures r.Failure? ==>
                packets == old(packets) == Seen().packets && (r.error == Authentication <==> Seen().failed)
      ensures r.Failure? && r.error != Authentication ==> inner.rest == []
    {
      hide Run;
      while true
        invariant Valid() && packets == old(packets)
        decreases |inner.rest|
      {
        var one := RecvOne();
        match one
        case Failure(e) => return Failure(e);
        case Success(Contents(m)) => return Success(m);
        case Success(_) =>
      }
    }
  }
}
