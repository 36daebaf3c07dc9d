/** Session keys of BIP 324, `derive_session_keys`. */
module SessionKeys {
  import opened Bytes
  import opened Bip324Primitives
  import opened FsChaCha20
  import opened FsChaCha20Poly1305
  import opened Packets

  const NETWORK_MAGIC: bytes := [0xf9, 0xbe, 0xb4, 0xd9]

  function Ascii(s: string): (r: bytes)
    requires forall c :: c in s ==> c < 256 as char
    ensures |r| == |s|
  {
    seq(|s|, i requires 0 <= i < |s| => (assert s[i] in s; s[i] as int as byte))
  }

  const V1_PREFIX: bytes := NETWORK_MAGIC + Ascii("version") + Zeros(5)

  const SALT: bytes := Ascii("bitcoin_v2_shared_secret") + NETWORK_MAGIC
  const SESSION_ID: bytes := Ascii("session_id")
  const INITIATOR_L: bytes := Ascii("initiator_L")
  const INITIATOR_P: bytes := Ascii("initiator_P")
  const RESPONDER_L: bytes := Ascii("responder_L")
  const RESPONDER_P: bytes := Ascii("responder_P")
  const GARBAGE_TERMINATORS: bytes := Ascii("garbage_terminators")

  datatype Keys = Keys(sessionId: bytes, send: Ciphers, recv: Ciphers, sendTerminator: bytes, recvTerminator: bytes)

  function CiphersOf(l: bytes, p: bytes): Ciphers {
    Ciphers(Init(l), AeadState(p, 0))
  }

  function DeriveSessionKeys(p: Primitives, secret: bytes, initiating: bool): (k: Keys)
    ensures |k.sendTerminator| == |k.recvTerminator| == 16
  {
    var sessionId := p.expand(SALT, secret, SESSION_ID);
    var initiator := CiphersOf(p.expand(SALT, secret, INITIATOR_L), p.expand(SALT, secret, INITIATOR_P));
    var responder := CiphersOf(p.expand(SALT, secret, RESPONDER_L), p.expand(SALT, secret, RESPONDER_P));
    var terminators := p.expand(SALT, secret, GARBAGE_TERMINATORS);
    if initiating then Keys(sessionId, initiator, responder, terminators[..16], terminators[16..])
    else Keys(sessionId, responder, initiator, terminators[16..], terminators[..16])
  }

  /** Each side sends with what the other receives with. */
  lemma KeysMirror(p: Primitives, secret: bytes)
    ensures var i, r := DeriveSessionKeys(p, secret, true), DeriveSessionKeys(p, secret, false);
            && i.sessionId == r.sessionId
            && i.send == r.recv && i.recv == r.send
            && i.sendTerminator == r.recvTerminator && i.recvTerminator == r.sendTerminator
  {
  }

  /** The salt and the labels, byte for byte. */
  lemma Labels()
    ensures SALT == [0x62, 0x69, 0x74, 0x63, 0x6f, 0x69, 0x6e, 0x5f, 0x76, 0x32, 0x5f, 0x73, 0x68, 0x61, 0x72, 0x65,
                     0x64, 0x5f, 0x73, 0x65, 0x63, 0x72, 0x65, 0x74, 0xf9, 0xbe, 0xb4, 0xd9]
    ensures SESSION_ID == [0x73, 0x65, 0x73, 0x73, 0x69, 0x6f, 0x6e, 0x5f, 0x69, 0x64]
    ensures INITIATOR_L == [0x69, 0x6e, 0x69, 0x74, 0x69, 0x61, 0x74, 0x6f, 0x72, 0x5f, 0x4c]
    ensures INITIATOR_P == [0x69, 0x6e, 0x69, 0x74, 0x69, 0x61, 0x74, 0x6f, 0x72, 0x5f, 0x50]
    ensures RESPONDER_L == [0x72, 0x65, 0x73, 0x70, 0x6f, 0x6e, 0x64, 0x65, 0x72, 0x5f, 0x4c]
    ensures RESPONDER_P == [0x72, 0x65, 0x73, 0x70, 0x6f, 0x6e, 0x64, 0x65, 0x72, 0x5f, 0x50]
    ensures GARBAGE_TERMINATORS == [0x67, 0x61, 0x72, 0x62, 0x61, 0x67, 0x65, 0x5f, 0x74, 0x65, 0x72, 0x6d, 0x69, 0x6e,
                                    0x61, 0x74, 0x6f, 0x72, 0x73]
    ensures V1_PREFIX == [0xf9, 0xbe, 0xb4, 0xd9, 0x76, 0x65, 0x72, 0x73, 0x69, 0x6f, 0x6e, 0, 0, 0, 0, 0]
  {
  }

  /** Which label each key of the initiator comes from; `KeysMirror` gives those of the responder. */
  lemma InitiatorKeys(p: Primitives, secret: bytes)
    ensures var k := DeriveSessionKeys(p, secret, true);
            && k.sessionId == p.expand(SALT, secret, SESSION_ID)
            && k.send.l.key == p.expand(SALT, secret, INITIATOR_L)
            && k.send.a.key == p.expand(SALT, secret, INITIATOR_P)
            && k.recv.l.key == p.expand(SALT, secret, RESPONDER_L)
            && k.recv.a.key == p.expand(SALT, secret, RESPONDER_P)
            && k.sendTerminator + k.recvTerminator == p.expand(SALT, secret, GARBAGE_TERMINATORS)
            && k.send.l.chunkCounter == k.send.a.packetCounter == 0
            && k.recv.l.chunkCounter == k.recv.a.packetCounter == 0
  {
    var both := p.expand(SALT, secret, GARBAGE_TERMINATORS);
    assert both[..16] + both[16..] == both;
  }

  function KeyList(k: Keys): seq<bytes> {
    [k.sessionId, k.send.l.key, k.send.a.key, k.recv.l.key, k.recv.a.key]
  }

  const LABELS: seq<bytes> := [SESSION_ID, INITIATOR_L, INITIATOR_P, RESPONDER_L, RESPONDER_P]

  /** HKDF gives this secret a different key for each label. */
  ghost predicate SeparatesLabels(p: Primitives, secret: bytes) {
    forall i, j :: 0 <= i < j < |LABELS| ==> p.expand(SALT, secret, LABELS[i]) != p.expand(SALT, secret, LABELS[j])
  }

  /** Where it does, no two of the session identifier and the four keys of a side are equal, so the two directions, and
      length and contents of one direction, never share a key. */
  lemma KeysDistinct(p: Primitives, secret: bytes, initiating: bool)
    requires SeparatesLabels(p, secret)
    ensures Distinct(KeyList(DeriveSessionKeys(p, secret, initiating)))
  {
    hide DeriveSessionKeys;
    InitiatorKeys(p, secret);
    KeysMirror(p, secret);
    var list := KeyList(DeriveSessionKeys(p, secret, initiating));
    forall i, j | 0 <= i < j < |list| ensures list[i] != list[j] {
      var order := if initiating then [0, 1, 2, 3, 4] else [0, 3, 4, 1, 2];
      var a, b := order[i], order[j];
      assert list[i] == p.expand(SALT, secret, LABELS[a]) && list[j] == p.expand(SALT, secret, LABELS[b]);
      var lo, hi := if a < b then a else b, if a < b then b else a;
      assert p.expand(SALT, secret, LABELS[lo]) != p.expand(SALT, secret, LABELS[hi]);
    }
  }
}
