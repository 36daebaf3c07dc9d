/** Both sides of the RLPx handshake over a FIFO connection that delivers bytes whenever and in whatever pieces. */
module RlpxAgreement {
  import opened Wrappers
  import opened Bytes
  import opened RlpxPrimitives
  import opened Framing
  import opened Ecies
  import opened Rlp
  import opened Hello
  import opened HandshakeBodies
  import opened Ark1
  import opened RlpxHandshake

  /** Both parties, and what the client writes first. */
  datatype Setup = Setup(p: Primitives, i: Party, r: Party, uuid: bytes, extra: bytes) {
    ghost predicate Valid() {
      i.Valid() && r.Valid() && |uuid| == UUID_LEN && MARKER_LEN + |extra| < FRAME_LIMIT
    }

    function PubI(): bytes { p.publicKey(i.staticKey) }
    function PubR(): bytes { p.publicKey(r.staticKey) }

    function AuthText(): bytes
      requires i.Valid()
    {
      AuthBody(AuthOf(p, i, PubR()), [RlpU64(VERSION)])
    }

    function AckText(): bytes
      requires r.Valid()
    {
      AckBody(AckOf(p, r), [RlpU64(VERSION)])
    }

    function Auth(): bytes
      requires i.Valid()
    {
      AuthWire(p, i, PubR())
    }

    function Ack(): bytes
      requires r.Valid()
    {
      AckWire(p, r, PubI())
    }

    /** The initiator's frame states behind auth and ack; the responder's are the same two, exchanged. */
    function Keys(): Session
      requires i.Valid() && r.Valid()
    {
      var (aes, mac) := DeriveRlpxKeys(p, p.sharedX(i.ephKey, p.publicKey(r.ephKey)), r.nonce, i.nonce);
      Session(Frames(aes, 0, mac, Xor(mac, r.nonce) + Auth()), Frames(aes, 0, mac, Xor(mac, i.nonce) + Ack()))
    }

    function HelloI(): (Frames, bytes)
      requires Valid()
    {
      Encoded(p, Keys().egress, EncodeHello(PubI(), true))
    }

    function HelloR(): (Frames, bytes)
      requires Valid()
    {
      Encoded(p, Keys().ingress, EncodeHello(PubR(), false))
    }

    /** The frame with the ARK1 packet that the initiator's user writes first. */
    function Marker(): (Frames, bytes)
      requires Valid()
    {
      Encoded(p, HelloI().0, Ark1Payload(uuid) + extra)
    }

    function AllI(): bytes
      requires Valid()
    {
      Auth() + HelloI().1 + Marker().1
    }

    function AllR(): bytes
      requires Valid()
    {
      Ack() + HelloR().1
    }
  }

  function Mirror(s: Session): Session {
    Session(s.ingress, s.egress)
  }

  // ----- Auth and ack -------------------------------------------------------

  lemma BodySizes(s: Setup)
    requires s.Valid()
    ensures |s.AuthText()| < 0x200 && |s.AckText()| < 0x200
    ensures FitsUsize(|s.AuthText()|) && FitsUsize(|s.AckText()|)
  {
    hide RlpBytes, RlpList, RlpU64, U64Bytes, AuthOf, FitsUsize;
    var a, k := AuthOf(s.p, s.i, s.PubR()), AckOf(s.p, s.r);
    SmallFits();
    U64IsBytes(VERSION);
    EncodingLengths(U64Bytes(VERSION),
                    [RlpBytes(a.sig + [a.recId]), RlpBytes(a.pub), RlpBytes(a.nonce)] + [RlpU64(VERSION)]);
    EncodingLengths(a.sig + [a.recId], []);
    EncodingLengths(a.pub, []);
    EncodingLengths(a.nonce, [RlpBytes(k.ephPub), RlpBytes(k.nonce)] + [RlpU64(VERSION)]);
    EncodingLengths(k.ephPub, []);
    EncodingLengths(k.nonce, []);
    AuthPayload(a.sig + [a.recId], a.pub, a.nonce, [RlpU64(VERSION)]);
    AckPayload(k.ephPub, k.nonce, [RlpU64(VERSION)]);
    Concat2(RlpU64(VERSION), []);
  }

  /** Both texts, byte for byte. */
  lemma Texts(s: Setup)
    requires s.Valid()
    ensures var a := AuthOf(s.p, s.i, s.PubR());
            s.AuthText() == [0xF8, 0xA7] + [0xB8, 0x41] + a.sig + [a.recId] + [0xB8, 0x40] + s.PubI()
                            + [0xA0] + s.i.nonce + [0x04]
    ensures s.AckText() == [0xF8, 0x64] + [0xB8, 0x40] + s.p.publicKey(s.r.ephKey) + [0xA0] + s.r.nonce + [0x04]
  {
    hide AuthBody, AckBody;
    AuthBytes(AuthOf(s.p, s.i, s.PubR()));
    AckBytes(AckOf(s.p, s.r));
  }

  /** The auth's size prefix is its length, and the responder gets its text and exact bytes. */
  lemma AuthArrives(s: Setup, behind: bytes)
    requires s.Valid()
    ensures FromBe(s.Auth()[..2]) == |s.Auth()|
    ensures ReceiveSealed(s.p, s.r.staticKey, s.Auth() + behind, AUTH_BODY_SIZE)
         == Success(Incoming(s.AuthText(), s.Auth(), behind))
  {
    hide SizedSeal, ReceiveSealed, AuthBody, AuthOf;
    BodySizes(s);
    SealedArrives(s.p, s.r.staticKey, s.AuthText(), s.i.probe, s.i.seal, AUTH_BODY_SIZE, behind);
  }

  lemma AckArrives(s: Setup, behind: bytes)
    requires s.Valid()
    ensures FromBe(s.Ack()[..2]) == |s.Ack()|
    ensures ReceiveSealed(s.p, s.i.staticKey, s.Ack() + behind, ACK_BODY_SIZE)
         == Success(Incoming(s.AckText(), s.Ack(), behind))
  {
    hide SizedSeal, ReceiveSealed, AckBody, AckOf;
    BodySizes(s);
    SealedArrives(s.p, s.i.staticKey, s.AckText(), s.r.probe, s.r.seal, ACK_BODY_SIZE, behind);
  }

  lemma AuthDecodes(s: Setup)
    requires s.Valid()
    ensures DecodeAuthBody(s.AuthText()) == Success(AuthOf(s.p, s.i, s.PubR()))
  {
    hide AuthBody, AuthOf, DecodeAuthBody, FitsUsize;
    BodySizes(s);
    AuthInverse(AuthOf(s.p, s.i, s.PubR()), [RlpU64(VERSION)], []);
    assert s.AuthText() + [] == s.AuthText();
  }

  /** The responder recovers the initiator's static key, the ephemeral key it signed with, and its nonce. */
  lemma ClaimRecovered(s: Setup)
    requires s.Valid()
    ensures ClaimOf(s.p, s.r, s.AuthText()) == Success(Claim(s.PubI(), s.p.publicKey(s.i.ephKey), s.i.nonce))
  {
    hide AuthBody, DecodeAuthBody, Xor;
    var a := AuthOf(s.p, s.i, s.PubR());
    AuthDecodes(s);
    var digest := s.p.keccak(Xor(s.p.sharedX(s.i.staticKey, s.PubR()), s.i.nonce));
    assert |s.p.sign(s.i.ephKey, digest)| == SIGNATURE_LEN;
    assert s.p.recover(a.sig, a.recId, digest) == Some(s.p.publicKey(s.i.ephKey));
  }

  lemma InitiatorKeys(s: Setup, behind: bytes)
    requires s.Valid()
    ensures InitiatorSession(s.p, s.i, s.Auth(), Incoming(s.AckText(), s.Ack(), behind)) == Success(s.Keys())
  {
    hide AckBody, DecodeAckBody, DeriveRlpxKeys, AuthWire, AckWire, FitsUsize;
    BodySizes(s);
    AckInverse(AckOf(s.p, s.r), [RlpU64(VERSION)], []);
    assert s.AckText() + [] == s.AckText();
  }

  /** Both sides derive the same secrets, and each sends with the frame state the other receives with. */
  lemma ResponderKeys(s: Setup)
    requires s.Valid()
    ensures ResponderSession(s.p, s.r, Claim(s.PubI(), s.p.publicKey(s.i.ephKey), s.i.nonce), s.Auth(), s.Ack())
         == Mirror(s.Keys())
  {
  }

  /** What the signature of the auth is on, and what both MACs start from: the hash of the two nonces' secret, combined
      with the nonce of the receiver, and the handshake message of the sender. */
  lemma SessionAsDevp2p(s: Setup)
    requires s.Valid()
    ensures var auth := AuthOf(s.p, s.i, s.PubR());
            && auth.sig + [auth.recId]
               == s.p.sign(s.i.ephKey, s.p.keccak(Xor(s.p.sharedX(s.i.staticKey, s.PubR()), s.i.nonce)))
            && auth.pub == s.PubI() && auth.nonce == s.i.nonce
            && AckOf(s.p, s.r) == Ack(s.p.publicKey(s.r.ephKey), s.r.nonce)
    ensures var z := s.p.sharedX(s.i.ephKey, s.p.publicKey(s.r.ephKey));
            var shared := s.p.keccak(z + s.p.keccak(s.r.nonce + s.i.nonce));
            var aes := s.p.keccak(z + shared);
            var mac := s.p.keccak(z + aes);
            InitiatorSession(s.p, s.i, s.Auth(), Incoming(s.AckText(), s.Ack(), []))
            == Success(Session(Frames(aes, 0, mac, Xor(mac, s.r.nonce) + s.Auth()),
                               Frames(aes, 0, mac, Xor(mac, s.i.nonce) + s.Ack())))
  {
    hide AuthWire, AckWire, AckBody, Xor, InitiatorSession;
    var auth := AuthOf(s.p, s.i, s.PubR());
    assert |s.p.sign(s.i.ephKey, s.p.keccak(Xor(s.p.sharedX(s.i.staticKey, s.PubR()), s.i.nonce)))| == SIGNATURE_LEN;
    InitiatorKeys(s, []);
    SecretsAsDevp2p(s.p, s.p.sharedX(s.i.ephKey, s.p.publicKey(s.r.ephKey)), s.r.nonce, s.i.nonce);
  }

  // ----- Initiators and responders of the old format ------------------------

  /** The auth of an initiator that knows no size prefix. */
  function OldAuth(s: Setup, vsn: byte): bytes
    requires s.i.Valid()
  {
    EncryptTo(s.p, s.PubR(), FlatAuthBody(AuthOf(s.p, s.i, s.PubR()), vsn), [], s.i.seal)
  }

  lemma FlatSizes(a: HandshakeBodies.Auth, vsn: byte)
    requires a.Valid()
    ensures |FlatAuthBody(a, vsn)| == AUTH_BODY_SIZE
  {
  }

  /** The responder answers such an auth as it answers one with a prefix, unless the signature starts with 0xc0 or from
      0xf7 on: then it refuses it. */
  lemma OldAuthAccepted(s: Setup, vsn: byte, behind: bytes)
    requires s.Valid()
    ensures var wire, lead := OldAuth(s, vsn), AuthOf(s.p, s.i, s.PubR()).sig[0];
            var claim := Claim(s.PubI(), s.p.publicKey(s.i.ephKey), s.i.nonce);
            var run := ResponderRun(s.p, s.r, wire + behind);
            if lead != 0xC0 && lead < 0xF7
            then run == ResponderHellos(s.p, s.r, s.Ack(), ResponderSession(s.p, s.r, claim, wire, s.Ack()), behind)
            else run.sent == [] && run.outcome.Failure? && run.rest == behind
  {
    hide ReceiveSealed, ResponderSession, ResponderHellos, AckWire, EncryptTo, DecodeAuthBody, Xor, FlatAuthBody;
    var a := AuthOf(s.p, s.i, s.PubR());
    FlatAuthIff(a, vsn);
    FlatSizes(a, vsn);
    OldArrives(s.p, s.r.staticKey, FlatAuthBody(a, vsn), s.i.seal, behind);
    var digest := s.p.keccak(Xor(s.p.sharedX(s.i.staticKey, s.PubR()), s.i.nonce));
    assert |s.p.sign(s.i.ephKey, digest)| == SIGNATURE_LEN;
    assert s.p.recover(a.sig, a.recId, digest) == Some(s.p.publicKey(s.i.ephKey));
  }

  /** Part of such an auth makes the responder wait. */
  lemma OldAuthPart(s: Setup, vsn: byte, part: bytes)
    requires s.Valid() && part <= OldAuth(s, vsn) && part != OldAuth(s, vsn)
    ensures ResponderRun(s.p, s.r, part) == Run([], [], Failure(Cut))
  {
    hide ReceiveSealed, ClaimOf, ResponderHellos, AckWire, EncryptTo, FlatAuthBody, AuthOf;
    var a := AuthOf(s.p, s.i, s.PubR());
    FlatSizes(a, vsn);
    OldPart(s.p, s.r.staticKey, s.PubR(), FlatAuthBody(a, vsn), s.i.seal, part);
  }

  lemma FlatAckSize(a: HandshakeBodies.Ack, vsn: byte)
    requires a.Valid()
    ensures |FlatAckBody(a, vsn)| == ACK_BODY_SIZE
  {
  }

  /** The same for an initiator that gets the ack of an old responder, whose key must start below 0xc0. */
  lemma OldAckAccepted(s: Setup, vsn: byte, behind: bytes)
    requires s.Valid()
    ensures var k := AckOf(s.p, s.r);
            var wire := EncryptTo(s.p, s.PubI(), FlatAckBody(k, vsn), [], s.r.seal);
            var run := InitiatorRun(s.p, s.i, s.PubR(), wire + behind);
            var z := s.p.sharedX(s.i.ephKey, s.p.publicKey(s.r.ephKey));
            var (aes, mac) := DeriveRlpxKeys(s.p, z, s.r.nonce, s.i.nonce);
            var keys := Session(Frames(aes, 0, mac, Xor(mac, s.r.nonce) + s.Auth()),
                                Frames(aes, 0, mac, Xor(mac, s.i.nonce) + wire));
            if k.ephPub[0] < 0xC0 then run == InitiatorHellos(s.p, s.i, s.Auth(), keys, behind)
            else run.sent == s.Auth() && run.outcome.Failure? && run.rest == behind
  {
    hide ReceiveSealed, InitiatorHellos, AuthWire, EncryptTo, DecodeAckBody, Xor, FlatAckBody, DeriveRlpxKeys;
    var k := AckOf(s.p, s.r);
    FlatAckIff(k, vsn);
    FlatAckSize(k, vsn);
    OldArrives(s.p, s.i.staticKey, FlatAckBody(k, vsn), s.r.seal, behind);
  }

  // ----- Complete inputs ----------------------------------------------------

  lemma HelloSizes(s: Setup)
    requires s.Valid()
    ensures |EncodeHello(s.PubI(), true)| < FRAME_LIMIT && |EncodeHello(s.PubR(), false)| < FRAME_LIMIT
    ensures HelloInner(EncodeHello(s.PubI(), true)) == Item(true)
  {
    EncodeHelloDetected(s.PubI(), true);
    EncodeHelloDetected(s.PubR(), false);
  }

  /** The initiator's run on an ack from this responder, with any bytes behind it. */
  lemma InitiatorConnected(s: Setup, behind: bytes)
    requires s.Valid()
    ensures InitiatorRun(s.p, s.i, s.PubR(), s.Ack() + behind)
         == InitiatorHellos(s.p, s.i, s.Auth(), s.Keys(), behind)
  {
    hide ReceiveSealed, InitiatorSession, InitiatorHellos, AuthWire, AckWire, AckBody, Setup.Keys;
    AckArrives(s, behind);
    InitiatorKeys(s, behind);
  }

  /** With the responder's ack and Hello, the initiator's handshake succeeds and leaves the bytes behind them. */
  lemma InitiatorCompletes(s: Setup, behind: bytes)
    requires s.Valid()
    ensures InitiatorRun(s.p, s.i, s.PubR(), s.AllR() + behind)
         == Run(s.Auth() + s.HelloI().1, behind, Success(Session(s.HelloI().0, s.HelloR().0)))
  {
    hide InitiatorRun, Encoded, Received, EncodeHello, AuthWire, AckWire, Setup.Keys;
    assert s.AllR() + behind == s.Ack() + (s.HelloR().1 + behind);
    InitiatorConnected(s, s.HelloR().1 + behind);
    HelloSizes(s);
    FrameLockstep(s.p, s.Keys().ingress, EncodeHello(s.PubR(), false), behind);
  }

  /** The responder's run on an auth from this initiator, with any frames behind it. */
  lemma ResponderAccepts(s: Setup, behind: bytes)
    requires s.Valid()
    ensures ResponderRun(s.p, s.r, s.Auth() + behind)
         == ResponderHellos(s.p, s.r, s.Ack(), Mirror(s.Keys()), behind)
  {
    hide ReceiveSealed, ClaimOf, ResponderSession, ResponderHellos, AuthWire, AckWire, AuthBody, Setup.Keys;
    AuthArrives(s, behind);
    ClaimRecovered(s);
    ResponderKeys(s);
  }

  /** What becomes of the frame behind a Hello with ARK1. */
  function MarkerOutcome(egress: Frames, ingress: Frames, marker: Result<bytes, FrameError>)
    : Result<Outcome, HandshakeError>
  {
    if marker.Failure? then Failure(FrameFailed(marker.error))
    else if ParseArk1(marker.value).None? then Failure(BadArk1)
    else Success(ArkClient(Session(egress, ingress), ParseArk1(marker.value).value, marker.value[MARKER_LEN..]))
  }

  /** How the responder's handshake ends for any Hello: it panics, or takes the peer for a real one, with whatever
      follows unread; or, if the Hello announces ARK1, it goes on to the next frame. */
  lemma ResponderDecides(s: Setup, hello: bytes, behind: bytes)
    requires s.Valid() && |hello| < FRAME_LIMIT
    ensures var h := Encoded(s.p, s.Keys().egress, hello);
            ResponderRun(s.p, s.r, s.Auth() + (h.1 + behind))
            == if HelloInner(hello).Panics? then Run(s.AllR(), behind, Failure(Crashed))
               else if HelloInner(hello) != Item(true) then
                 Run(s.AllR(), behind, Success(RealPeer(Session(s.HelloR().0, h.0))))
               else
                 var (ingress, marker, rest) := Received(s.p, h.0, behind);
                 Run(s.AllR(), rest, MarkerOutcome(s.HelloR().0, ingress, marker))
  {
    hide ResponderRun, Encoded, Received, EncodeHello, AuthWire, AckWire, Setup.Keys, HelloInner, ParseArk1;
    var h := Encoded(s.p, s.Keys().egress, hello);
    ResponderAccepts(s, h.1 + behind);
    FrameLockstep(s.p, s.Keys().egress, hello, behind);
  }

  /** With ARK1 announced, a marker frame makes a client and any other frame is refused. */
  lemma ResponderReadsMarker(s: Setup, hello: bytes, next: bytes, behind: bytes)
    requires s.Valid() && |hello| < FRAME_LIMIT && |next| < FRAME_LIMIT && HelloInner(hello) == Item(true)
    ensures var h := Encoded(s.p, s.Keys().egress, hello);
            var f := Encoded(s.p, h.0, next);
            ResponderRun(s.p, s.r, s.Auth() + (h.1 + (f.1 + behind)))
            == Run(s.AllR(), behind, MarkerOutcome(s.HelloR().0, f.0, Success(next)))
  {
    hide ResponderRun, Encoded, Received, EncodeHello, AuthWire, AckWire, Setup.Keys, HelloInner, MarkerOutcome;
    var h := Encoded(s.p, s.Keys().egress, hello);
    var f := Encoded(s.p, h.0, next);
    ResponderDecides(s, hello, f.1 + behind);
    FrameLockstep(s.p, h.0, next, behind);
  }

  // ----- Messages that crash the handshake ----------------------------------

  /** A Hello of ten bytes does, whatever follows it. */
  lemma PanicHelloCrashes(s: Setup, behind: bytes)
    requires s.Valid()
    ensures ResponderRun(s.p, s.r, s.Auth() + (Encoded(s.p, s.Keys().egress, PANIC_HELLO).1 + behind))
         == Run(s.AllR(), behind, Failure(Crashed))
  {
    hide ResponderRun, Encoded, AuthWire, AckWire, Setup.Keys, HelloInner;
    PanicHelloPanics();
    ResponderDecides(s, PANIC_HELLO, behind);
  }

  /** Nine bytes sealed to the responder's public key do so as an auth: no key or signature of the sender is looked
      at, and nothing is answered. */
  lemma PanicAuthCrashes(p: Primitives, r: Party, probe: Draw, seal: Draw, behind: bytes)
    requires r.Valid() && probe.Valid() && seal.Valid()
    ensures ResponderRun(p, r, SizedSeal(p, p.publicKey(r.staticKey), PANIC_ITEM, probe, seal) + behind)
         == Run([], behind, Failure(Crashed))
  {
    hide SizedSeal, ReceiveSealed, DecodeAuthBody, ResponderHellos;
    PanicItemPanicsBodies();
    SealedArrives(p, r.staticKey, PANIC_ITEM, probe, seal, AUTH_BODY_SIZE, behind);
  }

  /** The same nine bytes as an ack crash the initiator. */
  lemma PanicAckCrashes(s: Setup, probe: Draw, seal: Draw, behind: bytes)
    requires s.Valid() && probe.Valid() && seal.Valid()
    ensures InitiatorRun(s.p, s.i, s.PubR(), SizedSeal(s.p, s.PubI(), PANIC_ITEM, probe, seal) + behind)
         == Run(s.Auth(), behind, Failure(Crashed))
  {
    hide SizedSeal, ReceiveSealed, DecodeAckBody, AuthBody, AuthOf, InitiatorHellos;
    PanicItemPanicsBodies();
    SealedArrives(s.p, s.i.staticKey, PANIC_ITEM, probe, seal, ACK_BODY_SIZE, behind);
  }

  // ----- The honest initiator -----------------------------------------------

  lemma MarkerSize(s: Setup)
    requires s.Valid()
    ensures |Ark1Payload(s.uuid) + s.extra| < FRAME_LIMIT
  {
  }

  /** With the initiator's auth, Hello and first packet, the responder reports this client: its uuid, the bytes
      behind the marker, and frame states that mirror the initiator's. */
  lemma ResponderCompletes(s: Setup, behind: bytes)
    requires s.Valid()
    ensures ResponderRun(s.p, s.r, s.AllI() + behind)
         == Run(s.AllR(), behind, Success(ArkClient(Session(s.HelloR().0, s.Marker().0), s.uuid, s.extra)))
  {
    hide ResponderRun, Encoded, EncodeHello, AuthWire, AckWire, Setup.Keys, HelloInner, ParseArk1, Ark1Payload;
    HelloSizes(s);
    MarkerSize(s);
    ParseInvertsPayload(s.uuid, s.extra);
    ResponderReadsMarker(s, EncodeHello(s.PubI(), true), Ark1Payload(s.uuid) + s.extra, behind);
    assert s.AllI() + behind == s.Auth() + (s.HelloI().1 + (s.Marker().1 + behind));
  }

  // ----- Incomplete inputs --------------------------------------------------

  lemma AckPart(s: Setup, part: bytes)
    requires s.Valid() && part <= s.Ack() && part != s.Ack()
    ensures InitiatorRun(s.p, s.i, s.PubR(), part) == Run(s.Auth(), [], Failure(Cut))
  {
    hide ReceiveSealed, InitiatorSession, InitiatorHellos, SizedSeal, AckBody, AuthBody, AuthOf;
    BodySizes(s);
    SealedPart(s.p, s.i.staticKey, s.PubI(), s.AckText(), s.r.probe, s.r.seal, ACK_BODY_SIZE, part);
  }

  lemma AuthPart(s: Setup, part: bytes)
    requires s.Valid() && part <= s.Auth() && part != s.Auth()
    ensures ResponderRun(s.p, s.r, part) == Run([], [], Failure(Cut))
  {
    hide ReceiveSealed, ClaimOf, ResponderHellos, SizedSeal, AckBody, AuthBody, AuthOf;
    BodySizes(s);
    SealedPart(s.p, s.r.staticKey, s.PubR(), s.AuthText(), s.i.probe, s.i.seal, AUTH_BODY_SIZE, part);
  }

  lemma HelloWaits(s: Setup, tail: bytes)
    requires s.Valid() && tail <= s.HelloR().1 && tail != s.HelloR().1
    ensures var run := InitiatorHellos(s.p, s.i, s.Auth(), s.Keys(), tail);
            && run.outcome.Failure? && run.outcome.error.Starved() && run.sent == s.Auth() + s.HelloI().1
  {
    hide Encoded, Received, EncodeHello, AuthWire, AckWire, Setup.Keys;
    HelloSizes(s);
    PartialFrame(s.p, s.Keys().ingress, EncodeHello(s.PubR(), false), tail);
  }

  /** On part of the responder's bytes the initiator waits: it has sent its auth, and its Hello once the ack is
      complete. */
  lemma InitiatorWaits(s: Setup, part: bytes)
    requires s.Valid() && part <= s.AllR() && part != s.AllR()
    ensures var run := InitiatorRun(s.p, s.i, s.PubR(), part);
            && run.outcome.Failure? && run.outcome.error.Starved()
            && run.sent == if |part| < |s.Ack()| then s.Auth() else s.Auth() + s.HelloI().1
  {
    hide InitiatorRun, InitiatorHellos, Encoded, Received, EncodeHello, AuthWire, AckWire, Setup.Keys;
    assert part == s.AllR()[..|part|];
    if |part| < |s.Ack()| {
      assert part == s.Ack()[..|part|];
      AckPart(s, part);
    } else {
      var tail := part[|s.Ack()|..];
      assert part == s.Ack() + tail && tail <= s.HelloR().1;
      InitiatorConnected(s, tail);
      HelloWaits(s, tail);
    }
  }

  lemma HellosWait(s: Setup, tail: bytes)
    requires s.Valid() && tail <= s.HelloI().1 + s.Marker().1 && tail != s.HelloI().1 + s.Marker().1
    ensures var run := ResponderHellos(s.p, s.r, s.Ack(), Mirror(s.Keys()), tail);
            && run.outcome.Failure? && run.outcome.error.Starved() && run.sent == s.AllR()
  {
    hide Encoded, Received, EncodeHello, SizedSeal, AuthWire, AckWire, Setup.Keys, HelloInner;
    HelloSizes(s);
    var hello, marker := s.HelloI().1, s.Marker().1;
    if |tail| < |hello| {
      assert tail == (hello + marker)[..|tail|] == hello[..|tail|];
      PartialFrame(s.p, s.Keys().egress, EncodeHello(s.PubI(), true), tail);
    } else {
      var part := tail[|hello|..];
      assert tail == (hello + marker)[..|tail|] == hello + part;
      FrameLockstep(s.p, s.Keys().egress, EncodeHello(s.PubI(), true), part);
      PartialFrame(s.p, s.HelloI().0, Ark1Payload(s.uuid) + s.extra, part);
    }
  }

  /** On part of the initiator's bytes the responder waits: it has sent nothing before the auth is complete, and
      its ack and Hello from then on. */
  lemma ResponderWaits(s: Setup, part: bytes)
    requires s.Valid() && part <= s.AllI() && part != s.AllI()
    ensures var run := ResponderRun(s.p, s.r, part);
            && run.outcome.Failure? && run.outcome.error.Starved()
            && run.sent == if |part| < |s.Auth()| then [] else s.AllR()
  {
    hide ResponderRun, ResponderHellos, Encoded, EncodeHello, AuthWire, AckWire, Setup.Keys, Setup.AllR;
    assert s.AllI() == s.Auth() + (s.HelloI().1 + s.Marker().1);
    assert part == s.AllI()[..|part|];
    if |part| < |s.Auth()| {
      assert part == s.Auth()[..|part|];
      AuthPart(s, part);
    } else {
      var tail := part[|s.Auth()|..];
      assert part == s.Auth() + tail && tail <= s.HelloI().1 + s.Marker().1;
      ResponderAccepts(s, tail);
      HellosWait(s, tail);
    }
  }

  // ----- The two sides together ---------------------------------------------

  /** The bytes each side has got so far. What it has done is its run on them. */
  datatype Net = Net(gotI: bytes, gotR: bytes)

  /** What the initiator and its user have sent: the first packet follows a successful handshake. */
  function SentI(s: Setup, n: Net): bytes
    requires s.Valid()
  {
    var run := InitiatorRun(s.p, s.i, s.PubR(), n.gotI);
    if run.outcome.Failure? then run.sent
    else run.sent + Encoded(s.p, run.outcome.value.egress, Ark1Payload(s.uuid) + s.extra).1
  }

  function SentR(s: Setup, n: Net): bytes
    requires s.Valid()
  {
    ResponderRun(s.p, s.r, n.gotR).sent
  }

  /** TCP delivers up to `count` more bytes to the initiator or to the responder. */
  datatype Delivery = Delivery(toInitiator: bool, count: nat)

  function Prefix(sent: bytes, n: nat): bytes {
    if n <= |sent| then sent[..n] else sent
  }

  function Deliver(s: Setup, n: Net, d: Delivery): Net
    requires s.Valid()
  {
    if d.toInitiator then n.(gotI := Prefix(SentR(s, n), |n.gotI| + d.count))
    else n.(gotR := Prefix(SentI(s, n), |n.gotR| + d.count))
  }

  function Play(s: Setup, schedule: seq<Delivery>): Net
    requires s.Valid()
  {
    if schedule == [] then Net([], [])
    else Deliver(s, Play(s, schedule[..|schedule| - 1]), schedule[|schedule| - 1])
  }

  ghost predicate OnTrack(s: Setup, n: Net)
    requires s.Valid()
  {
    && n.gotI <= SentR(s, n) <= s.AllR() && s.Auth() <= SentI(s, n)
    && n.gotR <= SentI(s, n) <= s.AllI()
  }

  lemma SentSoFar(s: Setup, n: Net)
    requires s.Valid() && n.gotI <= s.AllR() && n.gotR <= s.AllI()
    ensures SentI(s, n) == if n.gotI == s.AllR() then s.AllI()
                           else if |n.gotI| < |s.Ack()| then s.Auth() else s.Auth() + s.HelloI().1
    ensures SentR(s, n) == if |n.gotR| < |s.Auth()| then [] else s.AllR()
  {
    hide InitiatorRun, ResponderRun, Encoded, EncodeHello, AuthWire, AckWire, Setup.Keys;
    if n.gotI == s.AllR() {
      InitiatorCompletes(s, []);
      assert s.AllR() + [] == s.AllR();
    } else {
      InitiatorWaits(s, n.gotI);
    }
    if n.gotR == s.AllI() {
      ResponderCompletes(s, []);
      assert s.AllI() + [] == s.AllI();
    } else {
      ResponderWaits(s, n.gotR);
    }
  }

  /** What has been sent is a prefix of the whole, and never shrinks as more arrives. */
  lemma SentGrows(s: Setup, n: Net, m: Net)
    requires s.Valid() && n.gotI <= m.gotI <= s.AllR() && n.gotR <= m.gotR <= s.AllI()
    ensures s.Auth() <= SentI(s, n) <= SentI(s, m) <= s.AllI() && SentR(s, n) <= SentR(s, m) <= s.AllR()
  {
    hide InitiatorRun, ResponderRun, Encoded, EncodeHello, AuthWire, AckWire, Setup.Keys;
    SentSoFar(s, n);
    SentSoFar(s, m);
  }

  lemma DeliverOnTrack(s: Setup, n: Net, d: Delivery)
    requires s.Valid() && OnTrack(s, n)
    ensures OnTrack(s, Deliver(s, n, d))
    ensures n.gotI <= Deliver(s, n, d).gotI && n.gotR <= Deliver(s, n, d).gotR
  {
    hide SentI, SentR, Encoded, AuthWire, AckWire, EncodeHello, Setup.AllI, Setup.AllR;
    SentGrows(s, n, Deliver(s, n, d));
  }

  lemma {:induction false} PlayOnTrack(s: Setup, schedule: seq<Delivery>)
    requires s.Valid()
    ensures OnTrack(s, Play(s, schedule))
  {
    hide SentI, SentR, Encoded, AuthWire, AckWire, EncodeHello, Setup.AllI, Setup.AllR;
    if schedule == [] {
      SentGrows(s, Net([], []), Net([], []));
    } else {
      PlayOnTrack(s, schedule[..|schedule| - 1]);
      DeliverOnTrack(s, Play(s, schedule[..|schedule| - 1]), schedule[|schedule| - 1]);
    }
  }

  /** Agreement, over every schedule: no side ever fails, it only waits for bytes; while something is undone,
      bytes are under way; and once all have arrived, the initiator is connected and the responder has this
      client's uuid and first bytes, with each side's frame states the other's. */
  lemma Agreement(s: Setup, schedule: seq<Delivery>)
    requires s.Valid()
    ensures var n := Play(s, schedule);
            var i := InitiatorRun(s.p, s.i, s.PubR(), n.gotI);
            var r := ResponderRun(s.p, s.r, n.gotR);
            && (i.outcome.Failure? ==> i.outcome.error.Starved())
            && (r.outcome.Failure? ==> r.outcome.error.Starved())
            && (i.outcome.Success? ==> i.outcome.value == Session(s.HelloI().0, s.HelloR().0))
            && (r.outcome.Success? ==>
                  r.outcome.value == ArkClient(Session(s.HelloR().0, s.Marker().0), s.uuid, s.extra))
            && (n.gotI == SentR(s, n) && n.gotR == SentI(s, n) ==>
                  i.outcome.Success? && r.outcome.Success? && i.rest == [] && r.rest == [])
  {
    hide InitiatorRun, ResponderRun, Encoded, EncodeHello, AuthWire, AckWire, Setup.Keys;
    PlayOnTrack(s, schedule);
    var n := Play(s, schedule);
    SentSoFar(s, n);
    assert s.AllR() + [] == s.AllR() && s.AllI() + [] == s.AllI();
    if n.gotI == s.AllR() {
      InitiatorCompletes(s, []);
    } else {
      InitiatorWaits(s, n.gotI);
    }
    if n.gotR == s.AllI() {
      ResponderCompletes(s, []);
    } else {
      ResponderWaits(s, n.gotR);
    }
  }

  /** Every delivery that finds bytes under way brings the handshake closer to its end. */
  lemma DeliveryProgress(s: Setup, n: Net, d: Delivery)
    requires s.Valid() && OnTrack(s, n) && d.count > 0
    requires if d.toInitiator then n.gotI != SentR(s, n) else n.gotR != SentI(s, n)
    ensures var m := Deliver(s, n, d);
            |n.gotI| + |n.gotR| < |m.gotI| + |m.gotR| <= |s.AllR()| + |s.AllI()|
  {
    hide SentI, SentR, Encoded, AuthWire, AckWire, EncodeHello, Setup.AllI, Setup.AllR;
    DeliverOnTrack(s, n, d);
  }
}
