/**
 FSChaCha20Poly1305, the rekeying AEAD of BIP 324's packet contents
 (section "Rekeying wrappers: FSChaCha20Poly1305 and FSChaCha20").
 */
module FsChaCha20Poly1305 {
  import opened Wrappers
  import opened Bytes
  import opened Bip324Primitives
  import opened FsChaCha20

  const REKEY_MARK: nat := 0xFFFF_FFFF

  datatype AeadState = AeadState(key: bytes, packetCounter: nat)

  function PacketNonce(counter: nat): bytes {
    Nonce(counter % REKEY_INTERVAL, counter / REKEY_INTERVAL)
  }

  function RekeyNonce(rekeyings: nat): bytes {
    Nonce(REKEY_MARK, rekeyings)
  }

  // ----- What each method does to the fields --------------------------------

  function Rekeyed(p: Primitives, s: AeadState): AeadState {
    var key :=
      if (s.packetCounter + 1) % REKEY_INTERVAL == 0 then
        p.seal(s.key, RekeyNonce(s.packetCounter / REKEY_INTERVAL), [], Zeros(KEY_LEN))[..KEY_LEN]
      else s.key;
    AeadState(key, s.packetCounter + 1)
  }

  function Sealed(p: Primitives, s: AeadState, aad: bytes, text: bytes): (r: (AeadState, bytes))
    ensures |r.1| == |text| + TAG_LEN
  {
    (Rekeyed(p, s), p.seal(s.key, PacketNonce(s.packetCounter), aad, text))
  }

  function Opened(p: Primitives, s: AeadState, aad: bytes, ct: bytes): (r: (AeadState, Option<bytes>))
    ensures r.1.Some? ==> |ct| == |r.1.value| + TAG_LEN
    ensures r.1.None? ==> r.0 == s
  {
    var text := p.open(s.key, PacketNonce(s.packetCounter), aad, ct);
    if text.Some? then (Rekeyed(p, s), text) else (s, None)
  }

  // ----- The AEAD calls of a life -------------------------------------------

  /** A call of the AEAD, for packet `counter` or for the rekey behind it, and the nonce it uses. */
  datatype Call = PacketCall(counter: nat) | RekeyCall(counter: nat) {
    function Uses(): bytes {
      if PacketCall? then PacketNonce(counter) else RekeyNonce(counter / REKEY_INTERVAL)
    }

    ghost predicate Possible() {
      counter < Radix(8) && (RekeyCall? ==> (counter + 1) % REKEY_INTERVAL == 0)
    }
  }

  /** The calls that a packet takes if it goes through; a decryption that fails is one call. */
  function CallsFor(counter: nat, through: bool): seq<Call> {
    if through && (counter + 1) % REKEY_INTERVAL == 0 then [PacketCall(counter), RekeyCall(counter)]
    else [PacketCall(counter)]
  }

  /** How many packets went through. In a life each element is an encryption, which goes through, or a decryption,
      which does or fails. */
  function Passed(life: seq<bool>): nat {
    if life == [] then 0
    else Passed(life[..|life| - 1]) + if life[|life| - 1] then 1 else 0
  }

  function Trace(life: seq<bool>): seq<Call> {
    if life == [] then []
    else
      var before := life[..|life| - 1];
      Trace(before) + CallsFor(Passed(before), life[|life| - 1])
  }

  function Nonces(calls: seq<Call>): (r: seq<bytes>)
    ensures |r| == |calls|
    ensures forall i :: 0 <= i < |r| ==> r[i] == calls[i].Uses()
  {
    seq(|calls|, i requires 0 <= i < |calls| => calls[i].Uses())
  }

  lemma LifeSnoc(life: seq<bool>, through: bool)
    ensures Passed(life + [through]) == Passed(life) + if through then 1 else 0
    ensures Trace(life + [through]) == Trace(life) + CallsFor(Passed(life), through)
  {
    hide CallsFor;
    assert (life + [through])[..|life|] == life;
  }

  lemma NoncesAppend(a: seq<Call>, b: seq<Call>)
    ensures Nonces(a + b) == Nonces(a) + Nonces(b)
  {
    hide Call.Uses;
    assert forall i :: 0 <= i < |a + b| ==> Nonces(a + b)[i] == (Nonces(a) + Nonces(b))[i];
  }

  /** How one more call of the object extends its nonces. */
  lemma NoncesSnoc(life: seq<bool>, through: bool)
    ensures Nonces(Trace(life + [through]))
         == if through && (Passed(life) + 1) % REKEY_INTERVAL == 0
            then Nonces(Trace(life)) + [PacketCall(Passed(life)).Uses()] + [RekeyCall(Passed(life)).Uses()]
            else Nonces(Trace(life)) + [PacketCall(Passed(life)).Uses()]
  {
    hide Call.Uses, Trace, Passed;
    LifeSnoc(life, through);
    var calls, packet, rekey := Trace(life), PacketCall(Passed(life)), RekeyCall(Passed(life));
    if through && (Passed(life) + 1) % REKEY_INTERVAL == 0 {
      assert calls + [packet, rekey] == (calls + [packet]) + [rekey];
      NoncesAppend(calls + [packet], [rekey]);
      assert Nonces([rekey]) == [rekey.Uses()];
    }
    NoncesAppend(calls, [packet]);
    assert Nonces([packet]) == [packet.Uses()];
  }

  class FsChaCha20Poly1305 {
    const p: Primitives
    var key: bytes
    var packetCounter: nat
    ghost var life: seq<bool>
    ghost var nonces: seq<bytes>  // of every AEAD call so far

    ghost function State(): AeadState
      reads this
    {
      AeadState(key, packetCounter)
    }

    /** The object's counter and its AEAD calls are those of its life. */
    ghost predicate Traced()
      reads this
    {
      packetCounter == Passed(life) && nonces == Nonces(Trace(life))
    }

    constructor (p: Primitives, initialKey: bytes)
      ensures this.p == p && State() == AeadState(initialKey, 0) && life == [] && Traced()
    {
      this.p := p;
      key, packetCounter, life, nonces := initialKey, 0, [], [];
    }

    method BuildNonce(counterInInterval: nat, rekeyings: nat) returns (nonce: bytes)
      ensures nonce == Nonce(counterInInterval, rekeyings)
    {
      nonce := Le(counterInInterval, 4) + Le(rekeyings, 8);
    }

    method MaybeRekey()
      modifies `key, `packetCounter, `nonces
      ensures State() == Rekeyed(p, old(State())) && packetCounter == old(packetCounter) + 1
      ensures nonces == if (old(packetCounter) + 1) % REKEY_INTERVAL == 0
                        then old(nonces) + [RekeyCall(old(packetCounter)).Uses()] else old(nonces)
    {
      hide Nonce, Nonces, Trace;
      if (packetCounter + 1) % REKEY_INTERVAL == 0 {
        var nonce := BuildNonce(REKEY_MARK, packetCounter / REKEY_INTERVAL);
        var ct := p.seal(key, nonce, [], Zeros(KEY_LEN));
        nonces := nonces + [nonce];
        key := ct[..KEY_LEN];
      }
      packetCounter := packetCounter + 1;
    }

    method Encrypt(aad: bytes, plaintext: bytes) returns (ct: bytes)
      modifies this
      ensures (State(), ct) == Sealed(p, old(State()), aad, plaintext)
      ensures life == old(life) + [true] && (old(Traced()) ==> Traced())
    {
      hide Nonce, Trace, Passed, Nonces, CallsFor, Rekeyed;
      var nonce := BuildNonce(packetCounter % REKEY_INTERVAL, packetCounter / REKEY_INTERVAL);
      ct := p.seal(key, nonce, aad, plaintext);
      nonces := nonces + [nonce];
      MaybeRekey();
      life := life + [true];
      LifeSnoc(old(life), true);
      NoncesSnoc(old(life), true);
    }

    /** A failed decryption leaves the key and the counter as they were. */
    method Decrypt(aad: bytes, ct: bytes) returns (plaintext: Option<bytes>)
      modifies this
      ensures (State(), plaintext) == Opened(p, old(State()), aad, ct)
      ensures life == old(life) + [plaintext.Some?] && (old(Traced()) ==> Traced())
    {
      hide Nonce, Trace, Passed, Nonces, CallsFor, Rekeyed;
      var nonce := BuildNonce(packetCounter % REKEY_INTERVAL, packetCounter / REKEY_INTERVAL);
      plaintext := p.open(key, nonce, aad, ct);
      nonces := nonces + [nonce];
      if plaintext.Some? {
        MaybeRekey();
      }
      life := life + [plaintext.Some?];
      LifeSnoc(old(life), plaintext.Some?);
      NoncesSnoc(old(life), plaintext.Some?);
    }
  }

  lemma NonceInjective(a: nat, e: nat, b: nat, f: nat)
    requires a < Radix(4) && b < Radix(4) && e < Radix(8) && f < Radix(8)
    ensures Nonce(a, e) == Nonce(b, f) <==> a == b && e == f
  {
    if Nonce(a, e) == Nonce(b, f) {
      LeRoundTrip(a, 4);
      LeRoundTrip(b, 4);
      LeRoundTrip(e, 8);
      LeRoundTrip(f, 8);
      assert Le(a, 4) == Nonce(a, e)[..4] == Le(b, 4);
      assert Le(e, 8) == Nonce(a, e)[4..] == Le(f, 8);
    }
  }

  /** Different calls use different nonces, packet or rekey. */
  lemma CallsDiffer(c: Call, d: Call)
    requires c.Possible() && d.Possible()
    ensures c.Uses() == d.Uses() <==> c == d
  {
    hide Nonce;
    RadixValues();
    NonceInjective(if c.PacketCall? then c.counter % REKEY_INTERVAL else REKEY_MARK, c.counter / REKEY_INTERVAL,
                   if d.PacketCall? then d.counter % REKEY_INTERVAL else REKEY_MARK, d.counter / REKEY_INTERVAL);
  }

  /** The calls so far are for packets up to the one that is due, and the due one was tried iff the last try failed. */
  lemma {:induction false} TraceCalls(life: seq<bool>)
    ensures forall c <- Trace(life) :: c.counter <= Passed(life)
    ensures forall c <- Trace(life) ::
              c.RekeyCall? ==> c.counter < Passed(life) && (c.counter + 1) % REKEY_INTERVAL == 0
    ensures PacketCall(Passed(life)) in Trace(life) <==> life != [] && !life[|life| - 1]
    decreases |life|
  {
    if life == [] {
    } else {
      var before, through := life[..|life| - 1], life[|life| - 1];
      assert life == before + [through];
      LifeSnoc(before, through);
      TraceCalls(before);
    }
  }

  lemma DistinctMore(a: seq<Call>, b: seq<Call>)
    ensures Distinct(a + b) <==> Distinct(a) && Distinct(b) && forall c <- b :: c !in a
  {
    var s := a + b;
    if Distinct(s) {
      forall i, j | 0 <= i < j < |b| ensures b[i] != b[j] {
        assert s[|a| + i] != s[|a| + j];
      }
      forall i, j | 0 <= i < |a| && 0 <= j < |b| ensures a[i] != b[j] {
        assert s[i] != s[|a| + j];
      }
      assert forall i, j :: 0 <= i < j < |a| ==> s[i] == a[i] && s[j] == a[j];
    }
    if Distinct(a) && Distinct(b) && forall c <- b :: c !in a {
      forall i, j | 0 <= i < j < |s| ensures s[i] != s[j] {
        assert j >= |a| ==> s[j] == b[j - |a|] && s[j] in b;
        assert i < |a| ==> s[i] in a;
      }
    }
  }

  lemma {:induction false} CallsRepeatIff(life: seq<bool>)
    ensures Distinct(Trace(life)) <==> forall i :: 0 <= i < |life| - 1 ==> life[i]
    decreases |life|
  {
    if life == [] {
    } else {
      var before, through := life[..|life| - 1], life[|life| - 1];
      assert life == before + [through];
      LifeSnoc(before, through);
      TraceCalls(before);
      CallsRepeatIff(before);
      DistinctMore(Trace(before), CallsFor(Passed(before), through));
      assert forall c <- CallsFor(Passed(before), through) :: c.PacketCall? || c !in Trace(before);
    }
  }

  /** Two AEAD calls of one instance share a nonce only if both try the same packet. */
  lemma SameNonceSamePacket(life: seq<bool>, i: nat, j: nat)
    requires Passed(life) < Radix(8) && i < |Trace(life)| && j < |Trace(life)|
    requires Nonces(Trace(life))[i] == Nonces(Trace(life))[j]
    ensures Trace(life)[i] == Trace(life)[j]
  {
    hide Call.Uses;
    TraceCalls(life);
    assert Trace(life)[i] in Trace(life) && Trace(life)[j] in Trace(life);
    CallsDiffer(Trace(life)[i], Trace(life)[j]);
  }

  /** Over the whole life of an instance no two AEAD calls, packet or rekey, share a nonce, exactly unless something
      is tried after a failed decryption. An encrypting instance never repeats one. */
  lemma NoncesNeverRepeat(life: seq<bool>)
    requires Passed(life) < Radix(8)
    ensures Distinct(Nonces(Trace(life))) <==> forall i :: 0 <= i < |life| - 1 ==> life[i]
  {
    hide Trace, Call.Uses;
    CallsRepeatIff(life);
    var calls, nonces := Trace(life), Nonces(Trace(life));
    if Distinct(calls) {
      forall i, j | 0 <= i < j < |calls| ensures nonces[i] != nonces[j] {
        if nonces[i] == nonces[j] {
          SameNonceSamePacket(life, i, j);
        }
      }
    }
    if Distinct(nonces) {
      forall i, j | 0 <= i < j < |calls| ensures calls[i] != calls[j] {
        assert nonces[i] != nonces[j];
      }
    }
  }

  // ----- Sender and receiver in lockstep ------------------------------------

  datatype Message = Message(aad: bytes, text: bytes)

  function SealAll(p: Primitives, s: AeadState, ms: seq<Message>): (r: (AeadState, seq<bytes>))
    ensures |r.1| == |ms|
    decreases ms
  {
    if ms == [] then (s, [])
    else
      var (t, ct) := Sealed(p, s, ms[0].aad, ms[0].text);
      var (u, cts) := SealAll(p, t, ms[1..]);
      (u, [ct] + cts)
  }

  function OpenAll(p: Primitives, s: AeadState, aads: seq<bytes>, cts: seq<bytes>): (AeadState, Option<seq<bytes>>)
    requires |aads| == |cts|
    decreases cts
  {
    if cts == [] then (s, Some([]))
    else
      var (t, text) := Opened(p, s, aads[0], cts[0]);
      if text.None? then (t, None)
      else
        var (u, texts) := OpenAll(p, t, aads[1..], cts[1..]);
        if texts.None? then (u, None) else (u, Some([text.value] + texts.value))
  }

  lemma OpenInvertsSeal(p: Primitives, s: AeadState, aad: bytes, text: bytes)
    ensures Opened(p, s, aad, Sealed(p, s, aad, text).1) == (Sealed(p, s, aad, text).0, Some(text))
  {
  }

  function Aads(ms: seq<Message>): (r: seq<bytes>)
    ensures |r| == |ms|
  {
    if ms == [] then [] else [ms[0].aad] + Aads(ms[1..])
  }

  function Texts(ms: seq<Message>): (r: seq<bytes>)
    ensures |r| == |ms|
  {
    if ms == [] then [] else [ms[0].text] + Texts(ms[1..])
  }

  /** Decryption inverts encryption over every message sequence, across all rekeys, and both sides end alike. */
  lemma {:induction false} Lockstep(p: Primitives, s: AeadState, ms: seq<Message>)
    ensures var (t, cts) := SealAll(p, s, ms);
            OpenAll(p, s, Aads(ms), cts) == (t, Some(Texts(ms)))
    decreases ms
  {
    hide Sealed, Opened;
    if ms == [] {
    } else {
      OpenInvertsSeal(p, s, ms[0].aad, ms[0].text);
      Lockstep(p, Sealed(p, s, ms[0].aad, ms[0].text).0, ms[1..]);
    }
  }

  // ----- The cipher as BIP 324 defines it -----------------------------------

  /** The key of each epoch of 224 packets: the first 32 bytes of 32 zero bytes sealed under the key before it. */
  function AeadEpochKey(p: Primitives, initialKey: bytes, epoch: nat): bytes {
    if epoch == 0 then initialKey
    else
      p.seal(AeadEpochKey(p, initialKey, epoch - 1), Le(0xFFFF_FFFF, 4) + Le(epoch - 1, 8), [], Zeros(32))[..32]
  }

  /** Packet `n` is sealed under the key of its epoch; the nonce is its number in the epoch and that of the epoch. */
  function SealedPacket(p: Primitives, initialKey: bytes, n: nat, m: Message): bytes {
    p.seal(AeadEpochKey(p, initialKey, n / REKEY_INTERVAL), Le(n % REKEY_INTERVAL, 4) + Le(n / REKEY_INTERVAL, 8),
           m.aad, m.text)
  }

  function AfterPackets(p: Primitives, initialKey: bytes, n: nat): AeadState {
    AeadState(AeadEpochKey(p, initialKey, n / REKEY_INTERVAL), n)
  }

  lemma SealPacket(p: Primitives, initialKey: bytes, n: nat, m: Message)
    ensures Sealed(p, AfterPackets(p, initialKey, n), m.aad, m.text)
         == (AfterPackets(p, initialKey, n + 1), SealedPacket(p, initialKey, n, m))
  {
    NextChunk(n);
  }

  function SealedFrom(p: Primitives, initialKey: bytes, n: nat, ms: seq<Message>): (r: seq<bytes>)
    ensures |r| == |ms|
  {
    seq(|ms|, i requires 0 <= i < |ms| => SealedPacket(p, initialKey, n + i, ms[i]))
  }

  /** FSChaCha20Poly1305 refines the definition of BIP 324 on every sequence of packets: key, nonce, associated data
      and text of each, across all rekeys. */
  lemma {:induction false} RefinesBip324(p: Primitives, initialKey: bytes, n: nat, ms: seq<Message>)
    ensures SealAll(p, AfterPackets(p, initialKey, n), ms)
         == (AfterPackets(p, initialKey, n + |ms|), SealedFrom(p, initialKey, n, ms))
    decreases ms
  {
    hide AfterPackets, SealedPacket, Sealed;
    if ms == [] {
    } else {
      SealPacket(p, initialKey, n, ms[0]);
      RefinesBip324(p, initialKey, n + 1, ms[1..]);
      assert SealedFrom(p, initialKey, n, ms)
          == [SealedPacket(p, initialKey, n, ms[0])] + SealedFrom(p, initialKey, n + 1, ms[1..]);
      assert n + 1 + |ms[1..]| == n + |ms|;
    }
  }

  /** The AEAD tells the two associated data apart, whatever the key, the nonce and the text. */
  ghost predicate TellsApart(p: Primitives, aad: bytes, other: bytes) {
    forall k, n, m :: p.open(k, n, other, p.seal(k, n, aad, m)).None?
  }

  /** Then what is sealed with the one does not open with the other. */
  lemma OtherAadRefused(p: Primitives, s: AeadState, aad: bytes, other: bytes, text: bytes)
    requires TellsApart(p, aad, other)
    ensures Opened(p, s, other, Sealed(p, s, aad, text).1) == (s, None)
  {
  }
}
