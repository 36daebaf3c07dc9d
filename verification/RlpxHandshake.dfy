/** The RLPx handshake (section "Initial Handshake" of the devp2p RLPx specification), up to the ARK1 frame. */
module RlpxHandshake {
  import opened Wrappers
  import opened Bytes
  import opened RlpxPrimitives
  import opened Framing
  import opened ByteSource
  import opened Ecies
  import opened Rlp
  import opened Hello
  import opened HandshakeBodies
  import opened Ark1

  const ECIES_OLD_PREFIX: byte := 4
  const VERSION: nat := 4

  datatype HandshakeError =
    | Cut                       // the stream ended inside a message
    | BadKey
    | EciesFailed(ecies: EciesError)
    | BadBody(body: BodyError)
    | BadRecoveryId
    | RecoveryFailed
    | FrameFailed(frame: FrameError)
    | BadArk1
    | Crashed                   // the task panicked on what the peer sent
  {
    predicate Starved() { Cut? || this == FrameFailed(StreamEnded) }
  }

  function BodyFailure(e: BodyError): HandshakeError {
    if e.Panicked? then Crashed else BadBody(e)
  }

  /** The private keys of one side and what it draws at random. */
  datatype Party = Party(staticKey: bytes, ephKey: bytes, nonce: bytes, probe: Draw, seal: Draw) {
    ghost predicate Valid() { |nonce| == 32 && probe.Valid() && seal.Valid() }
  }

  datatype Session = Session(egress: Frames, ingress: Frames)

  datatype Outcome =
    | ArkClient(session: Session, uuid: bytes, extra: bytes)
    | RealPeer(session: Session)

  /** What one side writes on a given input, what it leaves unread, and how its handshake ends. */
  datatype Run<T> = Run(sent: bytes, rest: bytes, outcome: Result<T, HandshakeError>)

  // ----- Messages with a size prefix ----------------------------------------

  function EncryptTo(p: Primitives, recipient: bytes, body: bytes, aad: bytes, draw: Draw): (r: bytes)
    ensures |r| == SERIALIZED_POINT + |draw.iv| + |body| + 32
  {
    Sealed(p, [4] + p.publicKey(draw.ek), p.sharedX(draw.ek, recipient), draw.iv, body, aad)
  }

  /** A probe encryption gives the size; the size then is the additional data of the real one. The size is a
      u16 that counts its own two bytes. */
  function SizedSeal(p: Primitives, recipient: bytes, body: bytes, probe: Draw, seal: Draw): bytes {
    var size := Be(|EncryptTo(p, recipient, body, [0, 0], probe)| % 0x1_0000 + 2, 2);
    size + EncryptTo(p, recipient, body, size, seal)
  }

  datatype Incoming = Incoming(body: bytes, wire: bytes, rest: bytes)

  function MessageLength(peek: bytes, flatBody: nat): (n: nat)
    requires |peek| == 2
    ensures n >= 2
  {
    if peek[0] == ECIES_OLD_PREFIX then flatBody + ECIES_OVERHEAD
    else if FromBe(peek) < 2 then 2 else FromBe(peek)
  }

  /** Reads one auth or ack: an old message of fixed size if it starts with 0x04, else one with a size prefix. */
  function ReceiveSealed(p: Primitives, key: bytes, input: bytes, flatBody: nat): Result<Incoming, HandshakeError> {
    if |input| < 2 then Failure(Cut)
    else
      var flat := input[0] == ECIES_OLD_PREFIX;
      var total := MessageLength(input[..2], flatBody);
      if |input| < total then Failure(Cut)
      else
        var body := if flat then Opened(p, key, input[..total], []) else Opened(p, key, input[2..total], input[..2]);
        if body.Failure? then Failure(EciesFailed(body.error))
        else Success(Incoming(body.value, input[..total], input[total..]))
  }

  lemma TwoReads(input: bytes, total: nat)
    requires 2 <= total <= |input|
    ensures input[2..][..total - 2] == input[2..total] && input[2..][total - 2..] == input[total..]
    ensures input[..2] + input[2..total] == input[..total] && input[..2][0] == input[0]
  {
  }

  method ReadSealed(p: Primitives, key: bytes, stream: ByteSource, flatBody: nat)
    returns (r: Result<Incoming, HandshakeError>)
    modifies stream
    ensures r == ReceiveSealed(p, key, old(stream.rest), flatBody)
    ensures r.Success? ==> stream.rest == r.value.rest
  {
    hide Opened, FromBe, MessageLength;
    ghost var input := stream.rest;
    var peek := stream.ReadExact(2);
    if peek.Failure? {
      return Failure(Cut);
    }
    var total := MessageLength(peek.value, flatBody);
    var rest := stream.ReadExact(total - 2);
    if rest.Failure? {
      return Failure(Cut);
    }
    var wire := peek.value + rest.value;
    TwoReads(input, total);
    var body: Result<bytes, EciesError>;
    if peek.value[0] == ECIES_OLD_PREFIX {
      body := EciesDecryptWithAad(p, key, wire, []);
    } else {
      body := EciesDecryptWithAad(p, key, rest.value, peek.value);
    }
    if body.Failure? {
      return Failure(EciesFailed(body.error));
    }
    r := Success(Incoming(body.value, wire, stream.rest));
  }

  method WriteSealed(p: Primitives, recipient: bytes, body: bytes, probe: Draw, seal: Draw) returns (wire: bytes)
    ensures wire == SizedSeal(p, recipient, body, probe, seal)
  {
    hide Sealed, Be;
    var measured := EciesEncryptWithAad(p, recipient, body, [0, 0], probe);
    var size := Be(|measured| % 0x1_0000 + 2, 2);
    var ct := EciesEncryptWithAad(p, recipient, body, size, seal);
    wire := size + ct;
  }

  lemma SizePrefix(n: nat)
    requires n < 0x1_0000
    ensures FromBe(Be(n, 2)) == n && Be(n, 2)[0] as nat == n / 0x100
  {
  }

  /** The size prefix is the length of the whole message, and the message arrives as sealed, leaving the bytes
      behind it, unless its prefix looks like an old message. */
  lemma SealedArrives(p: Primitives, key: bytes, body: bytes, probe: Draw, seal: Draw, flatBody: nat, behind: bytes)
    requires probe.Valid() && seal.Valid()
    requires var n := |body| + ECIES_OVERHEAD + 2; n < 0x1_0000 && n / 0x100 != 4
    ensures var wire := SizedSeal(p, p.publicKey(key), body, probe, seal);
            && |wire| == |body| + ECIES_OVERHEAD + 2 && FromBe(wire[..2]) == |wire|
            && ReceiveSealed(p, key, wire + behind, flatBody) == Success(Incoming(body, wire, behind))
  {
    hide Sealed, Opened, FromBe, Be;
    var n := |body| + ECIES_OVERHEAD + 2;
    var size := Be(n, 2);
    var ct := EncryptTo(p, p.publicKey(key), body, size, seal);
    SizePrefix(n);
    DecryptInvertsEncrypt(p, key, body, size, seal);
    var wire, input := size + ct, size + ct + behind;
    assert wire[..2] == size && input[..2] == size && input[2..n] == ct && input[..n] == wire && input[n..] == behind;
  }

  /** A message whose prefix starts with 0x04, or that is too long for the prefix, is cut elsewhere than at its end. */
  lemma SealedCutElsewhere(p: Primitives, key: bytes, wire: bytes, flatBody: nat, behind: bytes)
    requires |wire| >= 2 && MessageLength(wire[..2], flatBody) != |wire|
    ensures var r := ReceiveSealed(p, key, wire + behind, flatBody);
            r.Success? ==> r.value.wire != wire
  {
    hide Opened, FromBe;
    assert (wire + behind)[..2] == wire[..2];
  }

  /** For the two kinds of message that the handshake reads, the condition is exact: a message arrives as sealed if
      and only if its length fits in the prefix and is not one of 1024 to 1279. */
  lemma SealedArrivesIff(p: Primitives, key: bytes, body: bytes, probe: Draw, seal: Draw, flatBody: nat, behind: bytes)
    requires probe.Valid() && seal.Valid() && (flatBody == AUTH_BODY_SIZE || flatBody == ACK_BODY_SIZE)
    ensures var n, wire := |body| + ECIES_OVERHEAD + 2, SizedSeal(p, p.publicKey(key), body, probe, seal);
            ReceiveSealed(p, key, wire + behind, flatBody) == Success(Incoming(body, wire, behind))
            <==> n < 0x1_0000 && n / 0x100 != 4
  {
    hide Sealed, Opened, FromBe, Be, ReceiveSealed;
    var n, wire := |body| + ECIES_OVERHEAD + 2, SizedSeal(p, p.publicKey(key), body, probe, seal);
    if n < 0x1_0000 && n / 0x100 != 4 {
      SealedArrives(p, key, body, probe, seal, flatBody, behind);
    } else {
      var prefix := Be(|EncryptTo(p, p.publicKey(key), body, [0, 0], probe)| % 0x1_0000 + 2, 2);
      assert wire[..2] == prefix && |wire| == n;
      RadixValues();
      if n < 0x1_0000 {
        SizePrefix(n);
      }
      SealedCutElsewhere(p, key, wire, flatBody, behind);
    }
  }

  /** A part of such a message is not yet a message. */
  lemma SealedPart(p: Primitives, key: bytes, recipient: bytes, body: bytes, probe: Draw, seal: Draw, flatBody: nat,
                   part: bytes)
    requires probe.Valid() && seal.Valid()
    requires var n := |body| + ECIES_OVERHEAD + 2; n < 0x1_0000 && n / 0x100 != 4
    requires var wire := SizedSeal(p, recipient, body, probe, seal); part <= wire && part != wire
    ensures ReceiveSealed(p, key, part, flatBody) == Failure(Cut)
  {
    hide Sealed, Opened, FromBe, Be;
    var n := |body| + ECIES_OVERHEAD + 2;
    SizePrefix(n);
    var size := Be(n, 2);
    var ct := EncryptTo(p, recipient, body, size, seal);
    if |part| >= 2 {
      assert part[..2] == (size + ct)[..2] == size;
    }
  }

  /** The size prefix is in the clear, counts itself, and is the additional data of the sealed body. */
  lemma SizedBytes(p: Primitives, recipient: bytes, body: bytes, probe: Draw, seal: Draw)
    requires probe.Valid() && seal.Valid() && |body| + ECIES_OVERHEAD + 2 < 0x1_0000
    ensures var n := |body| + ECIES_OVERHEAD + 2;
            var size := [(n / 0x100) as byte, (n % 0x100) as byte];
            SizedSeal(p, recipient, body, probe, seal)
            == size + Sealed(p, [4] + p.publicKey(seal.ek), p.sharedX(seal.ek, recipient), seal.iv, body, size)
  {
    hide Sealed, Be;
    BeTwo(|body| + ECIES_OVERHEAD + 2);
  }

  // ----- Old messages -------------------------------------------------------

  /** A message of the old format, sealed without prefix and additional data, arrives as sealed, with any bytes behind
      it: it starts with the 0x04 of its point, and the length of its body gives its end. */
  lemma OldArrives(p: Primitives, key: bytes, body: bytes, seal: Draw, behind: bytes)
    requires seal.Valid()
    ensures var wire := EncryptTo(p, p.publicKey(key), body, [], seal);
            && |wire| == |body| + ECIES_OVERHEAD && wire[0] == ECIES_OLD_PREFIX
            && ReceiveSealed(p, key, wire + behind, |body|) == Success(Incoming(body, wire, behind))
  {
    hide Opened, FromBe, ConcatKdf, Tag, Xor, KeyStream;
    var wire := EncryptTo(p, p.publicKey(key), body, [], seal);
    DecryptInvertsEncrypt(p, key, body, [], seal);
    SealedParts(p, [4] + p.publicKey(seal.ek), p.sharedX(seal.ek, p.publicKey(key)), seal.iv, body, []);
    assert wire[0] == wire[..SERIALIZED_POINT][0];
    assert (wire + behind)[..|wire|] == wire && (wire + behind)[|wire|..] == behind;
    assert (wire + behind)[..2] == wire[..2];
  }

  /** A part of it is not yet a message. */
  lemma OldPart(p: Primitives, key: bytes, recipient: bytes, body: bytes, seal: Draw, part: bytes)
    requires seal.Valid()
    requires var wire := EncryptTo(p, recipient, body, [], seal); part <= wire && part != wire
    ensures ReceiveSealed(p, key, part, |body|) == Failure(Cut)
  {
    hide Opened, FromBe, ConcatKdf, Tag, Xor, KeyStream;
    var wire := EncryptTo(p, recipient, body, [], seal);
    SealedParts(p, [4] + p.publicKey(seal.ek), p.sharedX(seal.ek, recipient), seal.iv, body, []);
    assert wire[0] == wire[..SERIALIZED_POINT][0];
    if |part| >= 2 {
      assert part[0] == wire[0] && part[..2][0] == part[0];
    }
  }

  // ----- Session keys -------------------------------------------------------

  /** The AES secret and the MAC secret. */
  function DeriveRlpxKeys(p: Primitives, ephShared: bytes, nonceR: bytes, nonceI: bytes): (r: (bytes, bytes))
    ensures |r.0| == HASH_LEN && |r.1| == HASH_LEN
  {
    var shared := p.keccak(ephShared + p.keccak(nonceR + nonceI));
    var aes := p.keccak(ephShared + shared);
    (aes, p.keccak(ephShared + aes))
  }

  /** Keccak does not collide on these inputs. */
  ghost predicate Separates(p: Primitives, inputs: set<bytes>) {
    forall a, b :: a in inputs && b in inputs && a != b ==> p.keccak(a) != p.keccak(b)
  }

  /** The inputs of Keccak in deriving the secrets, as the devp2p specification writes them. */
  function SecretInputs(p: Primitives, ephShared: bytes, nonces: bytes): set<bytes> {
    var shared := p.keccak(ephShared + p.keccak(nonces));
    {nonces, ephShared + p.keccak(nonces), ephShared + shared, ephShared + p.keccak(ephShared + shared)}
  }

  /** Both secrets are hashes, in the order of the devp2p specification, of the ephemeral secret and of both nonces. */
  lemma SecretsAsDevp2p(p: Primitives, ephShared: bytes, nonceR: bytes, nonceI: bytes)
    ensures var shared := p.keccak(ephShared + p.keccak(nonceR + nonceI));
            var aes, mac := p.keccak(ephShared + shared), p.keccak(ephShared + p.keccak(ephShared + shared));
            DeriveRlpxKeys(p, ephShared, nonceR, nonceI) == (aes, mac)
  {
  }

  /** Both sides contribute: another nonce of either side gives other secrets, where Keccak does not collide on the
      inputs at hand. */
  lemma NoncesMatter(p: Primitives, ephShared: bytes, nonceR: bytes, nonceI: bytes, otherR: bytes, otherI: bytes)
    requires |nonceR| == |otherR| && (nonceR != otherR || nonceI != otherI)
    requires Separates(p, SecretInputs(p, ephShared, nonceR + nonceI) + SecretInputs(p, ephShared, otherR + otherI))
    ensures var (aes, mac) := DeriveRlpxKeys(p, ephShared, nonceR, nonceI);
            var (aes2, mac2) := DeriveRlpxKeys(p, ephShared, otherR, otherI);
            aes != aes2 && mac != mac2
  {
    var a, b := nonceR + nonceI, otherR + otherI;
    if a == b {
      SameParts(nonceR, nonceI, otherR, otherI);
    }
    var ha, hb := ephShared + p.keccak(a), ephShared + p.keccak(b);
    if ha == hb {
      SameParts(ephShared, p.keccak(a), ephShared, p.keccak(b));
    }
    var sa, sb := ephShared + p.keccak(ha), ephShared + p.keccak(hb);
    if sa == sb {
      SameParts(ephShared, p.keccak(ha), ephShared, p.keccak(hb));
    }
    var ma, mb := ephShared + p.keccak(sa), ephShared + p.keccak(sb);
    if ma == mb {
      SameParts(ephShared, p.keccak(sa), ephShared, p.keccak(sb));
    }
  }

  // ----- Initiator ----------------------------------------------------------

  function AuthOf(p: Primitives, i: Party, responder: bytes): (r: Auth)
    requires i.Valid()
    ensures r.Valid() && r.recId < 4
  {
    var token := p.sharedX(i.staticKey, responder);
    var sig := p.sign(i.ephKey, p.keccak(Xor(token, i.nonce)));
    Auth(sig[..64], sig[64], p.publicKey(i.staticKey), i.nonce)
  }

  function AuthWire(p: Primitives, i: Party, responder: bytes): bytes
    requires i.Valid()
  {
    SizedSeal(p, responder, AuthBody(AuthOf(p, i, responder), [RlpU64(VERSION)]), i.probe, i.seal)
  }

  function InitiatorSession(p: Primitives, i: Party, authWire: bytes, got: Incoming)
    : (s: Result<Session, HandshakeError>)
    requires i.Valid()
    ensures s.Success? ==> s.value.egress.position == 0 && s.value.ingress.position == 0
  {
    var ack := DecodeAckBody(got.body);
    if ack.Failure? then Failure(BodyFailure(ack.error))
    else
      var ephPub := p.parsePoint([4] + ack.value.ephPub);
      if ephPub.None? then Failure(BadKey)
      else
        var (aes, mac) := DeriveRlpxKeys(p, p.sharedX(i.ephKey, ephPub.value), ack.value.nonce, i.nonce);
        Success(Session(Frames(aes, 0, mac, Xor(mac, ack.value.nonce) + authWire),
                        Frames(aes, 0, mac, Xor(mac, i.nonce) + got.wire)))
  }

  /** An ack is believed exactly if its body decodes and its key is a point. */
  lemma AckBelievedIff(p: Primitives, i: Party, authWire: bytes, got: Incoming)
    requires i.Valid()
    ensures var ack := DecodeAckBody(got.body);
            && (InitiatorSession(p, i, authWire, got).Success? <==>
                  ack.Success? && p.parsePoint([0x04] + ack.value.ephPub).Some?)
            && (ack.Success? && p.parsePoint([0x04] + ack.value.ephPub).None? ==>
                  InitiatorSession(p, i, authWire, got) == Failure(BadKey))
            && (ack == Failure(Panicked) ==> InitiatorSession(p, i, authWire, got) == Failure(Crashed))
  {
    hide DecodeAckBody, DeriveRlpxKeys, Xor;
  }

  function InitiatorHellos(p: Primitives, i: Party, authWire: bytes, s: Session, input: bytes): Run<Session> {
    var (egress, hello) := Encoded(p, s.egress, EncodeHello(p.publicKey(i.staticKey), true));
    var (ingress, theirs, rest) := Received(p, s.ingress, input);
    Run(authWire + hello, rest,
        if theirs.Failure? then Failure(FrameFailed(theirs.error)) else Success(Session(egress, ingress)))
  }

  function InitiatorRun(p: Primitives, i: Party, responderPub: bytes, input: bytes): Run<Session>
    requires i.Valid()
  {
    var responder := p.parsePoint([4] + responderPub);
    if responder.None? then Run([], input, Failure(BadKey))
    else
      var auth := AuthWire(p, i, responder.value);
      var got := ReceiveSealed(p, i.staticKey, input, ACK_BODY_SIZE);
      if got.Failure? then Run(auth, [], Failure(got.error))
      else
        var s := InitiatorSession(p, i, auth, got.value);
        if s.Failure? then Run(auth, got.value.rest, Failure(s.error))
        else InitiatorHellos(p, i, auth, s.value, got.value.rest)
  }

  /** Without a point for the responder nothing is sent or read. */
  lemma BadKeySendsNothing(p: Primitives, i: Party, responderPub: bytes, input: bytes)
    requires i.Valid()
    requires p.parsePoint([0x04] + responderPub).None?
    ensures InitiatorRun(p, i, responderPub, input) == Run([], input, Failure(BadKey))
  {
  }

  class RlpxEncryptedStream {
    const inner: ByteSource
    const egress: FrameState
    const ingress: FrameState

    ghost function State(): Session
      reads egress, ingress
    {
      Session(egress.State(), ingress.State())
    }

    constructor (p: Primitives, inner: ByteSource, s: Session)
      requires s.egress.position == 0 && s.ingress.position == 0
      ensures this.inner == inner && State() == s && fresh(egress) && fresh(ingress) && egress != ingress
      ensures egress.p == p && ingress.p == p
    {
      this.inner := inner;
      egress := new FrameState(p, s.egress.aesKey, s.egress.macKey, s.egress.absorbed);
      ingress := new FrameState(p, s.ingress.aesKey, s.ingress.macKey, s.ingress.absorbed);
    }
  }

  /** The initiator's part of the Hello exchange, behind what it has `written` so far. */
  method SayHello(p: Primitives, i: Party, enc: RlpxEncryptedStream, written: bytes)
    returns (sent: bytes, fault: Option<HandshakeError>)
    requires enc.egress != enc.ingress && enc.egress.p == p && enc.ingress.p == p
    modifies enc.inner, enc.egress, enc.ingress
    ensures var run := InitiatorHellos(p, i, written, old(enc.State()), old(enc.inner.rest));
            && sent == run.sent && enc.inner.rest == run.rest
            && run.outcome == if fault.Some? then Failure(fault.value) else Success(enc.State())
  {
    hide EncodeHello, Received, Encoded;
    var hello := enc.egress.EncodeFrame(EncodeHello(p.publicKey(i.staticKey), true));
    sent := written + hello;
    var theirs := RecvFrame(enc.inner, enc.ingress);
    fault := if theirs.Failure? then Some(FrameFailed(theirs.error)) else None;
  }

  /** Writes go to `sent`, in order, before any later read. */
  method DoInitiatorHandshake(p: Primitives, i: Party, stream: ByteSource, responderPub: bytes)
    returns (sent: bytes, r: Result<RlpxEncryptedStream, HandshakeError>)
    requires i.Valid()
    modifies stream
    ensures var run := InitiatorRun(p, i, responderPub, old(stream.rest));
            && sent == run.sent
            && (r.Failure? ==> run.outcome == Failure(r.error))
            && (r.Success? ==> run.outcome == Success(r.value.State()) && r.value.inner == stream
                               && stream.rest == run.rest)
  {
    hide ReceiveSealed, SizedSeal, AuthOf, AuthBody, InitiatorHellos, InitiatorSession;
    var responder := p.parsePoint([4] + responderPub);
    if responder.None? {
      return [], Failure(BadKey);
    }
    var body := AuthBody(AuthOf(p, i, responder.value), [RlpU64(VERSION)]);
    var auth := WriteSealed(p, responder.value, body, i.probe, i.seal);
    sent := auth;
    var got := ReadSealed(p, i.staticKey, stream, ACK_BODY_SIZE);
    if got.Failure? {
      return sent, Failure(got.error);
    }
    var s := InitiatorSession(p, i, auth, got.value);
    if s.Failure? {
      return sent, Failure(s.error);
    }
    var enc := new RlpxEncryptedStream(p, stream, s.value);
    var fault;
    sent, fault := SayHello(p, i, enc, sent);
    return sent, if fault.Some? then Failure(fault.value) else Success(enc);
  }

  // ----- Responder ----------------------------------------------------------

  /** Who the initiator is: its static key, the ephemeral key behind its signature, and its nonce. */
  datatype Claim = Claim(pub: bytes, ephPub: bytes, nonce: bytes)

  function ClaimOf(p: Primitives, r: Party, body: bytes): (c: Result<Claim, HandshakeError>)
    ensures c.Success? ==> |c.value.nonce| == 32
  {
    var auth := DecodeAuthBody(body);
    if auth.Failure? then Failure(BodyFailure(auth.error))
    else
      var a := auth.value;
      var pub := p.parsePoint([4] + a.pub);
      if pub.None? then Failure(BadKey)
      else
        var digest := p.keccak(Xor(p.sharedX(r.staticKey, pub.value), a.nonce));
        if a.recId >= 4 then Failure(BadRecoveryId)
        else
          var ephPub := p.recover(a.sig, a.recId, digest);
          if ephPub.None? then Failure(RecoveryFailed) else Success(Claim(pub.value, ephPub.value, a.nonce))
  }

  /** An auth is believed exactly if its body decodes, its key is a point, its recovery identifier is less than 4, and
      the signature recovers, over the hash of the static secret combined with the nonce, to the ephemeral key. */
  lemma BelievedIff(p: Primitives, r: Party, body: bytes, c: Claim)
    ensures ClaimOf(p, r, body) == Success(c) <==>
              && DecodeAuthBody(body).Success?
              && var a := DecodeAuthBody(body).value;
              && p.parsePoint([0x04] + a.pub) == Some(c.pub) && a.recId < 4 && c.nonce == a.nonce
              && |p.sharedX(r.staticKey, c.pub)| == |a.nonce|
              && p.recover(a.sig, a.recId, p.keccak(Xor(p.sharedX(r.staticKey, c.pub), a.nonce))) == Some(c.ephPub)
  {
    hide DecodeAuthBody, Xor;
  }

  function AckOf(p: Primitives, r: Party): (a: Ack)
    requires r.Valid()
    ensures a.Valid()
  {
    Ack(p.publicKey(r.ephKey), r.nonce)
  }

  function AckWire(p: Primitives, r: Party, initiator: bytes): bytes
    requires r.Valid()
  {
    SizedSeal(p, initiator, AckBody(AckOf(p, r), [RlpU64(VERSION)]), r.probe, r.seal)
  }

  function ResponderSession(p: Primitives, r: Party, c: Claim, authWire: bytes, ackWire: bytes): (s: Session)
    requires r.Valid() && |c.nonce| == 32
    ensures s.egress.position == 0 && s.ingress.position == 0
  {
    var (aes, mac) := DeriveRlpxKeys(p, p.sharedX(r.ephKey, c.ephPub), r.nonce, c.nonce);
    Session(Frames(aes, 0, mac, Xor(mac, c.nonce) + ackWire), Frames(aes, 0, mac, Xor(mac, r.nonce) + authWire))
  }

  function ResponderHellos(p: Primitives, r: Party, ackWire: bytes, s: Session, input: bytes): Run<Outcome> {
    var (egress, hello) := Encoded(p, s.egress, EncodeHello(p.publicKey(r.staticKey), false));
    var (ingress, theirs, rest) := Received(p, s.ingress, input);
    var sent := ackWire + hello;
    if theirs.Failure? then Run(sent, rest, Failure(FrameFailed(theirs.error)))
    else if HelloInner(theirs.value).Panics? then Run(sent, rest, Failure(Crashed))
    else if HelloInner(theirs.value) != Item(true) then Run(sent, rest, Success(RealPeer(Session(egress, ingress))))
    else
      var (ingress2, marker, rest2) := Received(p, ingress, rest);
      Run(sent, rest2,
          if marker.Failure? then Failure(FrameFailed(marker.error))
          else
            var uuid := ParseArk1(marker.value);
            if uuid.None? then Failure(BadArk1)
            else Success(ArkClient(Session(egress, ingress2), uuid.value, marker.value[MARKER_LEN..])))
  }

  function ResponderRun(p: Primitives, r: Party, input: bytes): Run<Outcome>
    requires r.Valid()
  {
    var got := ReceiveSealed(p, r.staticKey, input, AUTH_BODY_SIZE);
    if got.Failure? then Run([], [], Failure(got.error))
    else
      var c := ClaimOf(p, r, got.value.body);
      if c.Failure? then Run([], got.value.rest, Failure(c.error))
      else
        var ack := AckWire(p, r, c.value.pub);
        ResponderHellos(p, r, ack, ResponderSession(p, r, c.value, got.value.wire, ack), got.value.rest)
  }

  datatype Responded = Ark(stream: RlpxEncryptedStream, uuid: bytes, extra: bytes) | Peer(stream: RlpxEncryptedStream)

  ghost function Value(r: Responded): Outcome
    reads r.stream.egress, r.stream.ingress
  {
    match r
    case Ark(enc, uuid, extra) => ArkClient(enc.State(), uuid, extra)
    case Peer(enc) => RealPeer(enc.State())
  }

  /** The responder's part of the Hello exchange, and the ARK1 frame if the initiator's Hello announces one. */
  method AnswerHello(p: Primitives, r: Party, enc: RlpxEncryptedStream, written: bytes)
    returns (sent: bytes, o: Result<Responded, HandshakeError>)
    requires enc.egress != enc.ingress && enc.egress.p == p && enc.ingress.p == p
    modifies enc.inner, enc.egress, enc.ingress
    ensures var run := ResponderHellos(p, r, written, old(enc.State()), old(enc.inner.rest));
            && sent == run.sent && enc.inner.rest == run.rest
            && (o.Failure? ==> run.outcome == Failure(o.error))
            && (o.Success? ==> run.outcome == Success(Value(o.value)) && o.value.stream == enc)
  {
    hide EncodeHello, Received, Encoded, HelloInner, ParseArk1;
    var hello := enc.egress.EncodeFrame(EncodeHello(p.publicKey(r.staticKey), false));
    sent := written + hello;
    var theirs := RecvFrame(enc.inner, enc.ingress);
    if theirs.Failure? {
      return sent, Failure(FrameFailed(theirs.error));
    }
    var hasArk1 := ParseHelloHasArk1(theirs.value);
    if hasArk1.None? {
      return sent, Failure(Crashed);
    }
    if !hasArk1.value {
      return sent, Success(Peer(enc));
    }
    var marker := RecvFrame(enc.inner, enc.ingress);
    if marker.Failure? {
      return sent, Failure(FrameFailed(marker.error));
    }
    var uuid := ParseArk1(marker.value);
    if uuid.None? {
      return sent, Failure(BadArk1);
    }
    return sent, Success(Ark(enc, uuid.value, marker.value[MARKER_LEN..]));
  }

  method DoResponderHandshake(p: Primitives, r: Party, stream: ByteSource)
    returns (sent: bytes, o: Result<Responded, HandshakeError>)
    requires r.Valid()
    modifies stream
    ensures var run := ResponderRun(p, r, old(stream.rest));
            && sent == run.sent
            && (o.Failure? ==> run.outcome == Failure(o.error))
            && (o.Success? ==> run.outcome == Success(Value(o.value)) && o.value.stream.inner == stream
                               && stream.rest == run.rest)
  {
    hide ReceiveSealed, SizedSeal, AckBody, ResponderHellos, ClaimOf, ResponderSession, AckOf;
    var got := ReadSealed(p, r.staticKey, stream, AUTH_BODY_SIZE);
    if got.Failure? {
      return [], Failure(got.error);
    }
    var c := ClaimOf(p, r, got.value.body);
    if c.Failure? {
      return [], Failure(c.error);
    }
    var ack := WriteSealed(p, c.value.pub, AckBody(AckOf(p, r), [RlpU64(VERSION)]), r.probe, r.seal);
    sent := ack;
    var enc := new RlpxEncryptedStream(p, stream, ResponderSession(p, r, c.value, got.value.wire, ack));
    sent, o := AnswerHello(p, r, enc, sent);
  }
}
