/** BIP 324 packets: `enc_len (3B) || aead_ciphertext (1 + contents + 16 B)`. */
module Packets {
  import opened Wrappers
  import opened Bytes
  import opened Bip324Primitives
  import opened FsChaCha20
  import opened FsChaCha20Poly1305

  const HEADER_LEN: nat := 1
  const IGNORE_FLAG: byte := 128  // 1 << IGNORE_BIT_POS
  const CONTENTS_LIMIT: nat := 0x100_0000

  /** The two ciphers of one direction. */
  datatype Ciphers = Ciphers(l: FsState, a: AeadState)

  datatype Received = BadTag | Decoy | Contents(contents: bytes)

  function Encoded(p: Primitives, c: Ciphers, contents: bytes, aad: bytes, ignore: bool): (r: (Ciphers, bytes))
    requires |contents| < CONTENTS_LIMIT
  {
    var (a, ct) := Sealed(p, c.a, aad, [if ignore then IGNORE_FLAG else 0] + contents);
    var (l, encLen) := Crypted(p, c.l, Le(|contents|, LENGTH_FIELD_LEN));
    (Ciphers(l, a), encLen + ct)
  }

  function LengthReceived(p: Primitives, l: FsState, encLen: bytes): (r: (FsState, nat))
    requires |encLen| == LENGTH_FIELD_LEN
    ensures r.1 >= HEADER_LEN + TAG_LEN
  {
    var (m, dec) := Crypted(p, l, encLen);
    (m, HEADER_LEN + FromLe(dec) + TAG_LEN)
  }

  function ContentsReceived(p: Primitives, a: AeadState, ct: bytes, aad: bytes): (r: (AeadState, Received))
    requires |ct| >= HEADER_LEN + TAG_LEN
    ensures r.1.BadTag? ==> r.0 == a
  {
    var (b, text) := Opened(p, a, aad, ct);
    if text.None? then (a, BadTag)
    else if text.value[0] >= IGNORE_FLAG then (b, Decoy)
    else (b, Contents(text.value[HEADER_LEN..]))
  }

  /** Decoding inverts encoding: the length announces the ciphertext, the contents come back, a decoy is
      recognised, and both ciphers end in the sender's state. */
  lemma PacketRoundTrip(p: Primitives, c: Ciphers, contents: bytes, aad: bytes, ignore: bool)
    requires |contents| < CONTENTS_LIMIT
    ensures var (d, packet) := Encoded(p, c, contents, aad, ignore);
            && |packet| == LENGTH_FIELD_LEN + HEADER_LEN + |contents| + TAG_LEN
            && LengthReceived(p, c.l, packet[..LENGTH_FIELD_LEN]) == (d.l, |packet| - LENGTH_FIELD_LEN)
            && ContentsReceived(p, c.a, packet[LENGTH_FIELD_LEN..], aad)
               == (d.a, if ignore then Decoy else Contents(contents))
  {
    hide Crypted, Sealed, Opened;
    var len := Le(|contents|, LENGTH_FIELD_LEN);
    var header: byte := if ignore then IGNORE_FLAG else 0;
    var text := [header] + contents;
    CryptInverse(p, c.l, len);
    RadixValues();
    LeRoundTrip(|contents|, LENGTH_FIELD_LEN);
    OpenInvertsSeal(p, c.a, aad, text);
    var (d, packet) := Encoded(p, c, contents, aad, ignore);
    assert packet[..LENGTH_FIELD_LEN] == Crypted(p, c.l, len).1;
    assert packet[LENGTH_FIELD_LEN..] == Sealed(p, c.a, aad, text).1;
    assert text[HEADER_LEN..] == contents;
  }

  /** Whatever header byte a peer seals, the packet is a decoy exactly if its top bit is set; the other bits do not
      matter. */
  lemma DecoyIff(p: Primitives, a: AeadState, header: byte, contents: bytes, aad: bytes)
    ensures var (b, ct) := Sealed(p, a, aad, [header] + contents);
            && |ct| >= HEADER_LEN + TAG_LEN
            && ContentsReceived(p, a, ct, aad)
               == (b, if header as nat / 128 % 2 == 1 then Decoy else Contents(contents))
  {
    hide Sealed, Opened;
    OpenInvertsSeal(p, a, aad, [header] + contents);
    assert ([header] + contents)[HEADER_LEN..] == contents;
  }

  /** A body is rejected exactly if the AEAD does not open it, under the nonce of the packet that is due, with this
      associated data; and then the cipher stays where it was. */
  lemma RejectedIff(p: Primitives, a: AeadState, ct: bytes, aad: bytes)
    requires |ct| >= HEADER_LEN + TAG_LEN
    ensures var (b, r) := ContentsReceived(p, a, ct, aad);
            var n := a.packetCounter;
            && (r.BadTag? <==> p.open(a.key, Le(n % 224, 4) + Le(n / 224, 8), aad, ct).None?)
            && b.packetCounter == if r.BadTag? then n else n + 1
  {
  }

  /** A packet as BIP 324 writes it: packet `n` of a direction whose ciphers started with the two keys. */
  function PacketBytes(p: Primitives, keyL: bytes, keyP: bytes, n: nat, contents: bytes, aad: bytes,
      ignore: bool): bytes
  {
    Xor(Le(|contents|, 3), Pad(p, keyL, n))
    + SealedPacket(p, keyP, n, Message(aad, [if ignore then 0x80 else 0x00] + contents))
  }

  function CiphersAt(p: Primitives, keyL: bytes, keyP: bytes, n: nat): Ciphers {
    Ciphers(AfterChunks(p, keyL, n), AfterPackets(p, keyP, n))
  }

  /** The encoder writes that packet, and the ciphers move on to the next one. */
  lemma EncodesAsBip324(p: Primitives, keyL: bytes, keyP: bytes, n: nat, contents: bytes, aad: bytes, ignore: bool)
    requires |contents| < CONTENTS_LIMIT
    ensures Encoded(p, CiphersAt(p, keyL, keyP, n), contents, aad, ignore)
         == (CiphersAt(p, keyL, keyP, n + 1), PacketBytes(p, keyL, keyP, n, contents, aad, ignore))
  {
    hide Crypted, Sealed, AfterChunks, AfterPackets, SealedPacket, Pad;
    CryptChunk(p, keyL, n, Le(|contents|, LENGTH_FIELD_LEN));
    SealPacket(p, keyP, n, Message(aad, [if ignore then IGNORE_FLAG else 0] + contents));
  }

  lemma CiphersStart(p: Primitives, keyL: bytes, keyP: bytes)
    ensures CiphersAt(p, keyL, keyP, 0) == Ciphers(Init(keyL), AeadState(keyP, 0))
  {
    BufferBelongsToEpoch(p, keyL, 0);
  }

  /** `v2_enc_packet` on the cipher objects. */
  method EncPacket(sendL: FsChaCha20, sendP: FsChaCha20Poly1305, contents: bytes, aad: bytes, ignore: bool)
    returns (packet: bytes)
    requires sendL.p == sendP.p
    requires |contents| < CONTENTS_LIMIT
    modifies sendL, sendP
    ensures (Ciphers(sendL.State(), sendP.State()), packet)
            == Encoded(sendL.p, old(Ciphers(sendL.State(), sendP.State())), contents, aad, ignore)
  {
    var header: byte := if ignore then IGNORE_FLAG else 0;
    var ct := sendP.Encrypt(aad, [header] + contents);
    var encLen := sendL.Crypt(Le(|contents|, LENGTH_FIELD_LEN));
    packet := encLen + ct;
  }

  /** `v2_receive_length` on the cipher object. */
  method ReceiveLength(recvL: FsChaCha20, encLen: bytes) returns (aeadLen: nat)
    requires |encLen| == LENGTH_FIELD_LEN
    modifies recvL
    ensures (recvL.State(), aeadLen) == LengthReceived(recvL.p, old(recvL.State()), encLen)
  {
    var dec := recvL.Crypt(encLen);
    aeadLen := HEADER_LEN + FromLe(dec) + TAG_LEN;
  }

  /** `v2_receive_contents` on the cipher object. */
  method ReceiveContents(recvP: FsChaCha20Poly1305, ct: bytes, aad: bytes) returns (r: Received)
    requires |ct| >= HEADER_LEN + TAG_LEN
    modifies recvP
    ensures (recvP.State(), r) == ContentsReceived(recvP.p, old(recvP.State()), ct, aad)
  {
    var text := recvP.Decrypt(aad, ct);
    if text.None? {
      return BadTag;
    }
    if text.value[0] >= IGNORE_FLAG {
      return Decoy;
    }
    return Contents(text.value[HEADER_LEN..]);
  }
}
