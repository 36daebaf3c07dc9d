/**
 FSChaCha20, the rekeying stream cipher of BIP 324's length fields
 (section "Rekeying wrappers: FSChaCha20Poly1305 and FSChaCha20").
 */
module FsChaCha20 {
  import opened Bytes
  import opened Bip324Primitives

  const REKEY_INTERVAL: nat := 224
  const LENGTH_FIELD_LEN: nat := 3

  /** The cipher's fields, as a value. */
  datatype FsState = FsState(key: bytes, chunkCounter: nat, blockCounter: nat, keystream: bytes)

  function Init(key: bytes): FsState {
    FsState(key, 0, 0, [])
  }

  /** nonce = LE32(first) || LE64(rekeyings) */
  function Nonce(first: nat, rekeyings: nat): (n: bytes)
    ensures |n| == 12
  {
    Le(first, 4) + Le(rekeyings, 8)
  }

  // ----- What each method does to the fields --------------------------------

  function Filled(p: Primitives, s: FsState, n: nat): (r: FsState)
    ensures |r.keystream| >= n
    decreases n - |s.keystream|
  {
    if |s.keystream| >= n then s
    else
      var block := p.block(s.key, Nonce(0, s.chunkCounter / REKEY_INTERVAL), s.blockCounter);
      Filled(p, s.(blockCounter := s.blockCounter + 1, keystream := s.keystream + block), n)
  }

  function Drawn(p: Primitives, s: FsState, n: nat): (r: (FsState, bytes))
    ensures |r.1| == n
  {
    var f := Filled(p, s, n);
    (f.(keystream := f.keystream[n..]), f.keystream[..n])
  }

  /** The fields after a chunk of `n` bytes, and the pad it was combined with. */
  function Advanced(p: Primitives, s: FsState, n: nat): (r: (FsState, bytes))
    ensures |r.1| == n
  {
    var (d, pad) := Drawn(p, s, n);
    var next :=
      if (d.chunkCounter + 1) % REKEY_INTERVAL == 0 then
        var (e, key) := Drawn(p, d, KEY_LEN);
        e.(key := key, blockCounter := 0)
      else d;
    (next.(chunkCounter := next.chunkCounter + 1), pad)
  }

  function Crypted(p: Primitives, s: FsState, chunk: bytes): (r: (FsState, bytes))
    ensures |r.1| == |chunk|
  {
    var (next, pad) := Advanced(p, s, |chunk|);
    (next, Xor(chunk, pad))
  }

  /** The rekeying stream cipher object. */
  class FsChaCha20 {
    const p: Primitives
    var key: bytes
    var chunkCounter: nat
    var blockCounter: nat
    var keystream: bytes

    ghost function State(): FsState
      reads this
    {
      FsState(key, chunkCounter, blockCounter, keystream)
    }

    constructor (p: Primitives, initialKey: bytes)
      ensures this.p == p && State() == Init(initialKey)
    {
      this.p := p;
      key, chunkCounter, blockCounter, keystream := initialKey, 0, 0, [];
    }

    method FillKeystream(nbytes: nat)
      modifies this
      ensures State() == Filled(p, old(State()), nbytes)
    {
      while |keystream| < nbytes
        invariant Filled(p, State(), nbytes) == Filled(p, old(State()), nbytes)
        decreases nbytes - |keystream|
      {
        var rekeyings := chunkCounter / REKEY_INTERVAL;
        var block := p.block(key, Nonce(0, rekeyings), blockCounter);
        blockCounter := blockCounter + 1;
        keystream := keystream + block;
      }
    }

    method GetKeystreamBytes(nbytes: nat) returns (ks: bytes)
      modifies this
      ensures (State(), ks) == Drawn(p, old(State()), nbytes)
    {
      FillKeystream(nbytes);
      ks := keystream[..nbytes];
      keystream := keystream[nbytes..];
    }

    method Crypt(chunk: bytes) returns (ret: bytes)
      modifies this
      ensures (State(), ret) == Crypted(p, old(State()), chunk)
    {
      var ks := GetKeystreamBytes(|chunk|);
      ret := Xor(chunk, ks);
      if (chunkCounter + 1) % REKEY_INTERVAL == 0 {
        key := GetKeystreamBytes(KEY_LEN);
        blockCounter := 0;
      }
      chunkCounter := chunkCounter + 1;
    }
  }

  // ----- The cipher as BIP 324 defines it -----------------------------------

  const CHUNK_BLOCKS: nat := 11

  /** The first `blocks` key stream blocks of an epoch. */
  function Keystream(p: Primitives, key: bytes, epoch: nat, blocks: nat): (r: bytes)
    ensures |r| == blocks * BLOCK_LEN
  {
    if blocks == 0 then []
    else Keystream(p, key, epoch, blocks - 1) + p.block(key, Nonce(0, epoch), blocks - 1)
  }

  /** The key of each epoch: the 32 key stream bytes behind the 224 length chunks of the epoch before. */
  function EpochKey(p: Primitives, initialKey: bytes, epoch: nat): bytes {
    if epoch == 0 then initialKey
    else
      var used := REKEY_INTERVAL * LENGTH_FIELD_LEN;
      Keystream(p, EpochKey(p, initialKey, epoch - 1), epoch - 1, CHUNK_BLOCKS)[used..used + KEY_LEN]
  }

  function EpochKeystream(p: Primitives, initialKey: bytes, epoch: nat): (r: bytes)
    ensures |r| == CHUNK_BLOCKS * BLOCK_LEN
  {
    Keystream(p, EpochKey(p, initialKey, epoch), epoch, CHUNK_BLOCKS)
  }

  /** The three bytes that chunk `n` is combined with. */
  function Pad(p: Primitives, initialKey: bytes, n: nat): (r: bytes)
    ensures |r| == LENGTH_FIELD_LEN
  {
    var at := n % REKEY_INTERVAL * LENGTH_FIELD_LEN;
    EpochKeystream(p, initialKey, n / REKEY_INTERVAL)[at..at + LENGTH_FIELD_LEN]
  }

  /** How many blocks cover the first `n` bytes. */
  function Blocks(n: nat): nat {
    (n + BLOCK_LEN - 1) / BLOCK_LEN
  }

  /** The fields after `n` length chunks: the lazy buffer holds the rest of the last block, and is empty
      right after a rekey. */
  function AfterChunks(p: Primitives, initialKey: bytes, n: nat): FsState {
    var key, epoch := EpochKey(p, initialKey, n / REKEY_INTERVAL), n / REKEY_INTERVAL;
    var used := n % REKEY_INTERVAL * LENGTH_FIELD_LEN;
    FsState(key, n, Blocks(used), Keystream(p, key, epoch, Blocks(used))[used..])
  }

  lemma {:induction false} KeystreamPrefix(p: Primitives, key: bytes, epoch: nat, a: nat, b: nat)
    requires a <= b
    ensures Keystream(p, key, epoch, a) <= Keystream(p, key, epoch, b)
    decreases b - a
  {
    if a == b {
    } else {
      KeystreamPrefix(p, key, epoch, a, b - 1);
    }
  }

  lemma DrawBuffered(p: Primitives, s: FsState, n: nat)
    requires n <= |s.keystream|
    ensures Drawn(p, s, n) == (s.(keystream := s.keystream[n..]), s.keystream[..n])
  {
  }

  /** Filling the buffer for three bytes inside an epoch takes at most one block. */
  lemma FillChunk(p: Primitives, s: FsState, used: nat)
    requires used + LENGTH_FIELD_LEN <= REKEY_INTERVAL * LENGTH_FIELD_LEN
    requires var epoch := s.chunkCounter / REKEY_INTERVAL;
             s.blockCounter == Blocks(used) && s.keystream == Keystream(p, s.key, epoch, Blocks(used))[used..]
    ensures var epoch, end := s.chunkCounter / REKEY_INTERVAL, used + LENGTH_FIELD_LEN;
            Filled(p, s, LENGTH_FIELD_LEN)
            == s.(blockCounter := Blocks(end), keystream := Keystream(p, s.key, epoch, Blocks(end))[used..])
  {
    hide Nonce;
    var epoch, end := s.chunkCounter / REKEY_INTERVAL, used + LENGTH_FIELD_LEN;
    if |s.keystream| < LENGTH_FIELD_LEN {
      assert Blocks(end) == Blocks(used) + 1;
      var ks := Keystream(p, s.key, epoch, Blocks(end));
      assert ks[used..] == s.keystream + p.block(s.key, Nonce(0, epoch), s.blockCounter);
    } else {
      assert Blocks(end) == Blocks(used);
    }
  }

  /** Drawing three bytes inside an epoch moves the buffer along the epoch's key stream. */
  lemma DrawChunk(p: Primitives, s: FsState, used: nat)
    requires used + LENGTH_FIELD_LEN <= REKEY_INTERVAL * LENGTH_FIELD_LEN
    requires var epoch := s.chunkCounter / REKEY_INTERVAL;
             s.blockCounter == Blocks(used) && s.keystream == Keystream(p, s.key, epoch, Blocks(used))[used..]
    ensures var epoch, end := s.chunkCounter / REKEY_INTERVAL, used + LENGTH_FIELD_LEN;
            Drawn(p, s, LENGTH_FIELD_LEN)
            == (s.(blockCounter := Blocks(end), keystream := Keystream(p, s.key, epoch, Blocks(end))[end..]),
                Keystream(p, s.key, epoch, CHUNK_BLOCKS)[used..end])
  {
    hide Filled, Keystream;
    var epoch, end := s.chunkCounter / REKEY_INTERVAL, used + LENGTH_FIELD_LEN;
    var ks := Keystream(p, s.key, epoch, Blocks(end));
    KeystreamPrefix(p, s.key, epoch, Blocks(end), CHUNK_BLOCKS);
    FillChunk(p, s, used);
    assert ks[used..][..LENGTH_FIELD_LEN] == ks[used..end];
    assert ks[used..][LENGTH_FIELD_LEN..] == ks[end..];
    assert Keystream(p, s.key, epoch, CHUNK_BLOCKS)[used..end] == ks[used..end];
  }

  lemma NextChunk(n: nat)
    ensures (n + 1) % REKEY_INTERVAL == 0 ==>
              n % REKEY_INTERVAL == REKEY_INTERVAL - 1 && (n + 1) / REKEY_INTERVAL == n / REKEY_INTERVAL + 1
    ensures (n + 1) % REKEY_INTERVAL != 0 ==>
              (n + 1) % REKEY_INTERVAL == n % REKEY_INTERVAL + 1 && (n + 1) / REKEY_INTERVAL == n / REKEY_INTERVAL
  {
  }

  /** What is left of an epoch's last block behind its chunks is the next key, and nothing more. */
  lemma NextKey(p: Primitives, initialKey: bytes, epoch: nat)
    ensures var left := EpochKeystream(p, initialKey, epoch)[REKEY_INTERVAL * LENGTH_FIELD_LEN..];
            left[..KEY_LEN] == EpochKey(p, initialKey, epoch + 1) && left[KEY_LEN..] == []
  {
    hide Keystream;
    var used, ks := REKEY_INTERVAL * LENGTH_FIELD_LEN, EpochKeystream(p, initialKey, epoch);
    assert ks[used..][..KEY_LEN] == ks[used..used + KEY_LEN];
  }

  /** Crypting chunk `n` combines it with `Pad` and moves to the state after `n + 1` chunks. */
  lemma CryptChunk(p: Primitives, initialKey: bytes, n: nat, chunk: bytes)
    requires |chunk| == LENGTH_FIELD_LEN
    ensures Crypted(p, AfterChunks(p, initialKey, n), chunk)
            == (AfterChunks(p, initialKey, n + 1), Xor(chunk, Pad(p, initialKey, n)))
  {
    hide Drawn, Keystream, EpochKey, Xor;
    var epoch, used := n / REKEY_INTERVAL, n % REKEY_INTERVAL * LENGTH_FIELD_LEN;
    NextChunk(n);
    DrawChunk(p, AfterChunks(p, initialKey, n), used);
    if (n + 1) % REKEY_INTERVAL == 0 {
      var d := Drawn(p, AfterChunks(p, initialKey, n), LENGTH_FIELD_LEN).0;
      assert Blocks(used + LENGTH_FIELD_LEN) == CHUNK_BLOCKS;
      DrawBuffered(p, d, KEY_LEN);
      NextKey(p, initialKey, epoch);
      assert Keystream(p, EpochKey(p, initialKey, epoch + 1), epoch + 1, 0)[0..] == [];
    }
  }

  function CryptAll(p: Primitives, s: FsState, chunks: seq<bytes>): (FsState, seq<bytes>)
    decreases chunks
  {
    if chunks == [] then (s, [])
    else
      var (t, out) := Crypted(p, s, chunks[0]);
      var (u, outs) := CryptAll(p, t, chunks[1..]);
      (u, [out] + outs)
  }

  /** Chunk `i` of a sequence that starts at chunk `n`, combined with its pad. */
  function Padded(p: Primitives, initialKey: bytes, n: nat, chunks: seq<bytes>): (r: seq<bytes>)
    requires forall i :: 0 <= i < |chunks| ==> |chunks[i]| == LENGTH_FIELD_LEN
  {
    seq(|chunks|, i requires 0 <= i < |chunks| => Xor(chunks[i], Pad(p, initialKey, n + i)))
  }

  /** FSChaCha20 refines the definition of BIP 324 on every sequence of length chunks. */
  lemma {:induction false} RefinesBip324(p: Primitives, initialKey: bytes, n: nat, chunks: seq<bytes>)
    requires forall i :: 0 <= i < |chunks| ==> |chunks[i]| == LENGTH_FIELD_LEN
    ensures CryptAll(p, AfterChunks(p, initialKey, n), chunks)
            == (AfterChunks(p, initialKey, n + |chunks|), Padded(p, initialKey, n, chunks))
    decreases chunks
  {
    hide AfterChunks, Crypted, Pad, Xor;
    if chunks == [] {
    } else {
      CryptChunk(p, initialKey, n, chunks[0]);
      RefinesBip324(p, initialKey, n + 1, chunks[1..]);
      assert Padded(p, initialKey, n, chunks)
          == [Xor(chunks[0], Pad(p, initialKey, n))] + Padded(p, initialKey, n + 1, chunks[1..]);
      assert n + 1 + |chunks[1..]| == n + |chunks|;
    }
  }

  /** The lazy buffer only ever holds key stream of the current epoch, although a rekey does not clear it:
      it is empty at every rekey. */
  lemma BufferBelongsToEpoch(p: Primitives, initialKey: bytes, n: nat)
    ensures AfterChunks(p, initialKey, 0) == Init(initialKey)
    ensures n % REKEY_INTERVAL == 0 ==> AfterChunks(p, initialKey, n).keystream == []
    ensures var used := n % REKEY_INTERVAL * LENGTH_FIELD_LEN;
            AfterChunks(p, initialKey, n).keystream
            == EpochKeystream(p, initialKey, n / REKEY_INTERVAL)[used..Blocks(used) * BLOCK_LEN]
  {
    var used, epoch := n % REKEY_INTERVAL * LENGTH_FIELD_LEN, n / REKEY_INTERVAL;
    KeystreamPrefix(p, EpochKey(p, initialKey, epoch), epoch, Blocks(used), CHUNK_BLOCKS);
  }

  /** A receiver with the sender's state recovers the chunk and ends in the sender's state. */
  lemma CryptInverse(p: Primitives, s: FsState, chunk: bytes)
    ensures var (t, out) := Crypted(p, s, chunk);
            Crypted(p, s, out) == (t, chunk)
  {
    XorTwice(chunk, Advanced(p, s, |chunk|).1);
  }
}
