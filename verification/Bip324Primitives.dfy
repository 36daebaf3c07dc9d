/**
 The cryptographic library calls of the BIP 324 transport, as function values.
 Every theorem quantifies over all suites that satisfy `Lawful`; nothing else is
 assumed about ChaCha20, Poly1305, ElligatorSwift or HKDF.
 */
module Bip324Primitives {
  import opened Wrappers
  import opened Bytes

  const BLOCK_LEN: nat := 64
  const TAG_LEN: nat := 16
  const KEY_LEN: nat := 32
  const ELLSWIFT_LEN: nat := 64

  datatype Suite = Suite(
    // ChaCha20 key stream block: key, nonce, block number
    block: (bytes, bytes, nat) -> bytes,
    // ChaCha20-Poly1305: key, nonce, associated data, text
    seal: (bytes, bytes, bytes, bytes) -> bytes,
    open: (bytes, bytes, bytes, bytes) -> Option<bytes>,
    // ElligatorSwift encoding of a public key: private key, auxiliary randomness
    publicKey: (bytes, bytes) -> bytes,
    // our private key, their encoding, our encoding, whether we initiate
    ecdh: (bytes, bytes, bytes, bool) -> bytes,
    // HKDF-SHA256 to 32 bytes: salt, secret, info
    expand: (bytes, bytes, bytes) -> bytes)
  {
    ghost predicate Lawful() {
      && (forall k, n, i :: |block(k, n, i)| == BLOCK_LEN)
      && (forall k, n, a, m :: |seal(k, n, a, m)| == |m| + TAG_LEN)
      && (forall k, n, a, m :: open(k, n, a, seal(k, n, a, m)) == Some(m))
      && (forall k, n, a, c :: open(k, n, a, c).Some? ==> |c| == |open(k, n, a, c).value| + TAG_LEN)
      && (forall d, x :: |publicKey(d, x)| == ELLSWIFT_LEN)
      && (forall d, x, e, y ::
            ecdh(d, publicKey(e, y), publicKey(d, x), true) == ecdh(e, publicKey(d, x), publicKey(e, y), false))
      && (forall s, z, i :: |expand(s, z, i)| == KEY_LEN)
    }
  }

  /** A suite without secrecy; it shows that the assumptions are consistent. */
  function Toy(): (s: Suite)
    ensures s.Lawful()
  {
    Suite(
      (k, n, i) => Zeros(BLOCK_LEN),
      (k, n, a, m) => m + Zeros(TAG_LEN),
      (k, n, a, c) => if |c| < TAG_LEN then None else Some(c[..|c| - TAG_LEN]),
      (d, x) => Zeros(ELLSWIFT_LEN),
      (d, theirs, ours, initiating) => Zeros(KEY_LEN),
      (s, z, i) => Zeros(KEY_LEN))
  }

  type Primitives = s: Suite | s.Lawful() ghost witness Toy()
}
