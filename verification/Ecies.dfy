/** The devp2p variant of ECIES, on `04 || x || y || iv || ciphertext || tag`. */
module Ecies {
  import opened Wrappers
  import opened Bytes
  import opened RlpxPrimitives

  const ECIES_OVERHEAD: nat := 113   // point (65) + iv (16) + tag (32)
  const SERIALIZED_POINT: nat := 65
  const IV_LEN: nat := 16
  const BODY_START: nat := 81

  datatype EciesError = TooShort | BadPoint | BadMac

  /** What one encryption draws at random. */
  datatype Draw = Draw(ek: bytes, iv: bytes) {
    ghost predicate Valid() { |iv| == IV_LEN }
  }

  /** NIST SP 800-56A with SHA-256 and counter 1, split into encryption key and MAC key. */
  function ConcatKdf(p: Primitives, z: bytes): (r: (bytes, bytes))
    ensures |r.0| == 16 && |r.1| == 16
  {
    var h := p.sha256([0, 0, 0, 1] + z);
    (h[..16], h[16..])
  }

  function Tag(p: Primitives, km: bytes, aad: bytes, iv: bytes, ct: bytes): (r: bytes)
    ensures |r| == 32
  {
    p.hmac(p.sha256(km), aad + iv + ct)
  }

  /** The message that carries `text` under the shared coordinate `z`, the given point and the given iv. */
  function Sealed(p: Primitives, point: bytes, z: bytes, iv: bytes, text: bytes, aad: bytes): (r: bytes)
    ensures |r| == |point| + |iv| + |text| + 32
  {
    var (ke, km) := ConcatKdf(p, z);
    var ct := Xor(text, KeyStream(p, ke, iv, 0, |text|));
    point + iv + ct + Tag(p, km, aad, iv, ct)
  }

  method EciesEncryptWithAad(p: Primitives, recipient: bytes, message: bytes, aad: bytes, draw: Draw)
    returns (out: bytes)
    ensures out == Sealed(p, [4] + p.publicKey(draw.ek), p.sharedX(draw.ek, recipient), draw.iv, message, aad)
  {
    var z := p.sharedX(draw.ek, recipient);
    var (ke, km) := ConcatKdf(p, z);
    var ct := message;
    ct := Xor(ct, KeyStream(p, ke, draw.iv, 0, |ct|));
    var mac: bytes := [];
    if aad != [] {
      mac := mac + aad;
    }
    mac := mac + draw.iv;
    mac := mac + ct;
    assert mac == aad + draw.iv + ct;
    var tag := p.hmac(p.sha256(km), mac);
    out := [4] + p.publicKey(draw.ek);
    out := out + draw.iv;
    out := out + ct;
    out := out + tag;
  }

  function Opened(p: Primitives, key: bytes, data: bytes, aad: bytes): Result<bytes, EciesError> {
    if |data| < ECIES_OVERHEAD then Failure(TooShort)
    else
      var point := p.parsePoint(data[..SERIALIZED_POINT]);
      if point.None? then Failure(BadPoint)
      else
        var iv, ct, tag := data[SERIALIZED_POINT..BODY_START], data[BODY_START..|data| - 32], data[|data| - 32..];
        var (ke, km) := ConcatKdf(p, p.sharedX(key, point.value));
        if tag != Tag(p, km, aad, iv, ct) then Failure(BadMac)
        else Success(Xor(ct, KeyStream(p, ke, iv, 0, |ct|)))
  }

  method EciesDecryptWithAad(p: Primitives, key: bytes, data: bytes, aad: bytes)
    returns (r: Result<bytes, EciesError>)
    ensures r == Opened(p, key, data, aad)
  {
    if |data| < ECIES_OVERHEAD {
      return Failure(TooShort);
    }
    var point := p.parsePoint(data[..SERIALIZED_POINT]);
    if point.None? {
      return Failure(BadPoint);
    }
    var iv, ct, tag := data[SERIALIZED_POINT..BODY_START], data[BODY_START..|data| - 32], data[|data| - 32..];
    var (ke, km) := ConcatKdf(p, p.sharedX(key, point.value));
    var mac: bytes := [];
    if aad != [] {
      mac := mac + aad;
    }
    mac := mac + iv;
    mac := mac + ct;
    assert mac == aad + iv + ct;
    if tag != p.hmac(p.sha256(km), mac) {
      return Failure(BadMac);
    }
    var pt := ct;
    pt := Xor(pt, KeyStream(p, ke, iv, 0, |pt|));
    r := Success(pt);
  }

  /** `data` is what sealing `text` for `key`, under the point and the iv that `data` shows, amounts to. */
  ghost predicate SealedFor(p: Primitives, key: bytes, data: bytes, aad: bytes, text: bytes)
    requires |data| >= ECIES_OVERHEAD
  {
    var head, iv := data[..SERIALIZED_POINT], data[SERIALIZED_POINT..BODY_START];
    && p.parsePoint(head).Some?
    && data == Sealed(p, head, p.sharedX(key, p.parsePoint(head).value), iv, text, aad)
  }

  lemma OpenedIsSealed(p: Primitives, data: bytes, z: bytes, text: bytes, aad: bytes)
    requires |data| >= ECIES_OVERHEAD
    requires var (ke, km) := ConcatKdf(p, z);
             var iv, ct := data[SERIALIZED_POINT..BODY_START], data[BODY_START..|data| - 32];
             && text == Xor(ct, KeyStream(p, ke, iv, 0, |ct|))
             && data[|data| - 32..] == Tag(p, km, aad, iv, ct)
    ensures data == Sealed(p, data[..SERIALIZED_POINT], z, data[SERIALIZED_POINT..BODY_START], text, aad)
  {
    hide ConcatKdf, Tag, Xor, KeyStream;
    var (ke, km) := ConcatKdf(p, z);
    var iv, ct := data[SERIALIZED_POINT..BODY_START], data[BODY_START..|data| - 32];
    XorTwice(ct, KeyStream(p, ke, iv, 0, |ct|));
    assert data == data[..SERIALIZED_POINT] + iv + ct + data[|data| - 32..];
  }

  lemma SealedParts(p: Primitives, point: bytes, z: bytes, iv: bytes, text: bytes, aad: bytes)
    requires |point| == SERIALIZED_POINT && |iv| == IV_LEN
    ensures var (ke, km) := ConcatKdf(p, z);
            var ct := Xor(text, KeyStream(p, ke, iv, 0, |text|));
            var data := Sealed(p, point, z, iv, text, aad);
            && data[..SERIALIZED_POINT] == point
            && data[SERIALIZED_POINT..BODY_START] == iv
            && data[BODY_START..|data| - 32] == ct
            && data[|data| - 32..] == Tag(p, km, aad, iv, ct)
  {
  }

  /** Decryption accepts exactly the messages that some text is sealed to under their own point and iv, for this
      additional data, and returns that text. */
  lemma OpenedIffSealed(p: Primitives, key: bytes, data: bytes, aad: bytes, text: bytes)
    ensures Opened(p, key, data, aad) == Success(text)
        <==> |data| >= ECIES_OVERHEAD && SealedFor(p, key, data, aad, text)
  {
    hide ConcatKdf, Tag, Xor, KeyStream, Sealed;
    if |data| >= ECIES_OVERHEAD && p.parsePoint(data[..SERIALIZED_POINT]).Some? {
      var head, iv := data[..SERIALIZED_POINT], data[SERIALIZED_POINT..BODY_START];
      var z := p.sharedX(key, p.parsePoint(head).value);
      var (ke, km) := ConcatKdf(p, z);
      if Opened(p, key, data, aad) == Success(text) {
        OpenedIsSealed(p, data, z, text, aad);
      }
      if data == Sealed(p, head, z, iv, text, aad) {
        SealedParts(p, head, z, iv, text, aad);
        XorTwice(text, KeyStream(p, ke, iv, 0, |text|));
      }
    }
  }

  /** What is encrypted to a public key comes back under its private key, 113 bytes longer on the wire. */
  lemma DecryptInvertsEncrypt(p: Primitives, key: bytes, message: bytes, aad: bytes, draw: Draw)
    requires draw.Valid()
    ensures var wire := Sealed(p, [4] + p.publicKey(draw.ek), p.sharedX(draw.ek, p.publicKey(key)), draw.iv,
                               message, aad);
            |wire| == |message| + ECIES_OVERHEAD && Opened(p, key, wire, aad) == Success(message)
  {
    hide ConcatKdf, Tag, Xor, KeyStream, Opened;
    var point, z := [4] + p.publicKey(draw.ek), p.sharedX(draw.ek, p.publicKey(key));
    SealedParts(p, point, z, draw.iv, message, aad);
    OpenedIffSealed(p, key, Sealed(p, point, z, draw.iv, message, aad), aad, message);
  }

  // ----- What goes on the wire ----------------------------------------------

  /** Both keys come from SHA-256 of counter 1 and the shared coordinate; the first half encrypts, and the tag is an
      HMAC, under the hash of the second half, of the additional data, the iv and the ciphertext. */
  lemma SealsAsDevp2p(p: Primitives, point: bytes, z: bytes, iv: bytes, text: bytes, aad: bytes)
    ensures var keys := p.sha256([0, 0, 0, 1] + z);
            var ct := Xor(text, KeyStream(p, keys[..16], iv, 0, |text|));
            Sealed(p, point, z, iv, text, aad) == point + iv + ct + p.hmac(p.sha256(keys[16..]), aad + (iv + ct))
  {
    var keys := p.sha256([0, 0, 0, 1] + z);
    var ct := Xor(text, KeyStream(p, keys[..16], iv, 0, |text|));
    assert aad + iv + ct == aad + (iv + ct);
  }

  /** A message is accepted exactly if it is long enough, shows a point, and ends with the HMAC of the additional data
      and of everything between the point and the tag. */
  lemma AcceptedIff(p: Primitives, key: bytes, data: bytes, aad: bytes)
    ensures Opened(p, key, data, aad).Success? <==>
              && |data| >= ECIES_OVERHEAD && p.parsePoint(data[..65]).Some?
              && var keys := p.sha256([0, 0, 0, 1] + p.sharedX(key, p.parsePoint(data[..65]).value));
                 data[|data| - 32..] == p.hmac(p.sha256(keys[16..]), aad + data[65..|data| - 32])
    ensures Opened(p, key, data, aad).Failure? ==>
              Opened(p, key, data, aad).error == if |data| < ECIES_OVERHEAD then TooShort
                                                 else if p.parsePoint(data[..65]).None? then BadPoint else BadMac
  {
    if |data| >= ECIES_OVERHEAD {
      assert data[65..|data| - 32] == data[65..81] + data[81..|data| - 32];
      assert aad + data[65..|data| - 32] == aad + data[65..81] + data[81..|data| - 32];
    }
  }
}
