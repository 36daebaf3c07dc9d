/**
 The cryptographic library calls of the RLPx transport, as function values. Every theorem quantifies over all
 suites that satisfy `Lawful`; nothing else is assumed about AES, Keccak, SHA-256, HMAC or secp256k1.
 */
module RlpxPrimitives {
  import opened Wrappers
  import opened Bytes

  const POINT_LEN: nat := 64
  const HASH_LEN: nat := 32
  const AES_BLOCK: nat := 16
  const SIGNATURE_LEN: nat := 65

  datatype Suite = Suite(
    // one byte of an AES-CTR key stream: key, initial counter block, position
    ctr: (bytes, bytes, nat) -> byte,
    // AES-256 on one block: key, block
    aes: (bytes, bytes) -> bytes,
    keccak: bytes -> bytes,
    sha256: bytes -> bytes,
    // HMAC-SHA256: key, message
    hmac: (bytes, bytes) -> bytes,
    // x || y of the public key of a private key
    publicKey: bytes -> bytes,
    // parses 65 serialized bytes to x || y
    parsePoint: bytes -> Option<bytes>,
    // x coordinate of the shared point: private key, x || y
    sharedX: (bytes, bytes) -> bytes,
    // compact signature and recovery identifier: private key, digest
    sign: (bytes, bytes) -> bytes,
    // compact signature, recovery identifier, digest
    recover: (bytes, byte, bytes) -> Option<bytes>)
  {
    ghost predicate Lawful() {
      && (forall k, b :: |aes(k, b)| == AES_BLOCK)
      && (forall m :: |keccak(m)| == HASH_LEN)
      && (forall m :: |sha256(m)| == HASH_LEN)
      && (forall k, m :: |hmac(k, m)| == HASH_LEN)
      && (forall d :: |publicKey(d)| == POINT_LEN)
      && (forall d :: parsePoint([4] + publicKey(d)) == Some(publicKey(d)))
      && (forall d, q :: |sharedX(d, q)| == HASH_LEN)
      && (forall d, e :: sharedX(d, publicKey(e)) == sharedX(e, publicKey(d)))
      && (forall d, m :: |sign(d, m)| == SIGNATURE_LEN && sign(d, m)[64] < 4)
      && (forall d, m :: |sign(d, m)| == SIGNATURE_LEN ==>
            recover(sign(d, m)[..64], sign(d, m)[64], m) == Some(publicKey(d)))
    }
  }

  /** A suite without secrecy; it shows that the assumptions are consistent. */
  function Toy(): (s: Suite)
    ensures s.Lawful()
  {
    Suite(
      (k, iv, i) => 0,
      (k, b) => Zeros(AES_BLOCK),
      m => Zeros(HASH_LEN),
      m => Zeros(HASH_LEN),
      (k, m) => Zeros(HASH_LEN),
      d => Zeros(POINT_LEN),
      q => Some(Zeros(POINT_LEN)),
      (d, q) => Zeros(HASH_LEN),
      (d, m) => Zeros(SIGNATURE_LEN),
      (sig, id, m) => Some(Zeros(POINT_LEN)))
  }

  type Primitives = s: Suite | s.Lawful() ghost witness Toy()

  /** `n` bytes of an AES-CTR key stream from position `pos`. */
  function KeyStream(p: Primitives, key: bytes, iv: bytes, pos: nat, n: nat): (r: bytes)
    ensures |r| == n
  {
    seq(n, i requires 0 <= i < n => p.ctr(key, iv, pos + i))
  }
}
