# ArkTunnel verification

This project models the encrypted transports of ArkTunnel and the state machines around them, and proves what they
promise. `dafny verify dfyconfig.toml` checks all of it.

What is modelled:

- **BIP 324 transport** (`FsChaCha20`, `FsChaCha20Poly1305`, `Packets`, `Receiving`, `Tcp`, `Bip324Stream`,
  `Bip324Session`, `EncryptedStream`, `Readers`, `SkipGarbage`, `SessionKeys`, `Bip324Handshake`): the rekeying ciphers
  with their lazily filled buffer, packets, the poll-driven stream on a TCP that fragments and stalls at will, the blocking reader,
  and the handshake as two processes over two FIFO channels.
- **RLPx transport** (`Ecies`, `Rlp`, `Hello`, `HandshakeBodies`, `Framing`, `RlpxStream`, `RlpxReader`,
  `RlpxHandshake`, `RlpxAgreement`): ECIES, the RLP encoder and decoder, auth and ack, key derivation, the
  framing with running MAC and CTR key stream, the buffered writer and the reader of `RlpxStream` (two classes, as they share no field), and the
  handshake of both sides over a connection that delivers bytes in any pieces.
- **ARK-frame and SOCKS5 UDP** (`ArkFrame`, `UdpDatagrams`, `Socks5Udp`): requests, the datagram stream, and the three
  address parsers.
- **State machines with time** (`Timeline`, `ProbeHistory`, `ProbeTracker`, `NatTable`, `EndpointHistory`, `Endpoints`): each is a
  class proved against a definition over the full history of calls.

Method of the model:

- Objects that change are classes with the fields of the source. Each method is tied by its `ensures` to a function
  on values or to a ghost history, and the theorems are about those.
- `Receiving.Run` is the reference for both BIP 324 readers: it takes one byte at a time. The poll-driven reader and the
  blocking reader are both proved equal to it, so fragmentation cannot matter (`Readers.ReadersAgree`).
- The cryptographic primitives are function values (`Bip324Primitives.Suite`, `RlpxPrimitives.Suite`). Every theorem
  holds for all suites that satisfy `Lawful`: fixed output lengths, decryption of an encryption, symmetry of the key
  agreement, and recovery of the signing key. A toy suite shows that these assumptions are consistent.
- Round trips alone would hold of any two sides that err alike, so what goes on the wire is also proved equal, byte for
  byte, to definitions without state that follow BIP 324, devp2p and ARK-frame (`Receiving.WireIsBip324`,
  `Bip324Handshake.SentAsBip324`, `Framing.EncodesAsDevp2p`, `RlpxAgreement.SessionAsDevp2p`, `RlpxAgreement.Texts`,
  `Hello.HelloBytes`, `ArkFrame.RequestBytes`), and what is accepted is characterized exactly (`Ecies.AcceptedIff`,
  `Framing.FrameAcceptedIff`, `Packets.RejectedIff`, `Rlp.DecodesIff`, `RlpxHandshake.BelievedIff`).
- TCP is `Tcp.Pipe`, whose polls follow a list of answers (not ready, failure, or up to so many bytes); the theorems
  hold for every list. Blocking reads use `ByteSource`, and `RlpxAgreement` lets bytes arrive in any pieces. Clocks,
  random draws and the results of connection attempts are arguments or arbitrary.
- `utf8: bytes -> bool` stands for the validity check of the standard library; all results hold for any such check.
- BIP 324 handshake theorems assume what the protocol needs: the key of the initiator does not start like a version 1
  message, and the terminator does not occur early in the garbage. `V1KeyIsForwarded` shows what happens otherwise with
  the key.

Where the code and its documentation disagree, the model follows the code:

- `bip324/mod.rs` documents buffering until a flush; the code encrypts one packet in each `poll_write`.
- `MAX_GARBAGE_LEN` is 4095, the maximum of BIP 324, but the search loop ends before it looks at offset 4095, so 4094
  bytes of garbage is the most that is accepted; senders pick at most that.
- The protocol overview describes a 22-byte opening, a VLESS envelope, shape classes and rekeying every 2^24 packets;
  the code has none of these, and rekeys every 224 packets.
- The probe tracker is documented to trip when an address exceeds ten failures; it trips at the tenth.
- `is_tarpitted`, `record_failure` and `gc` read the clock before they take the lock, so calls can arrive with decreasing
  times. The tracker then can miss a trip (`ProbeTracker.LateStamp`), but never trips without ten recent failures.
- `encode_frame` accepts any length, but a frame of 2^24 bytes or more does not come back (`Framing.FrameReturnsIff`).
- `RlpxStream` puts all that was written since the last frame was taken into one frame, and a flush that finds a frame
  pending takes none. So what was written arrives exactly if each flush that finds no frame pending finds fewer than
  2^24 bytes (`RlpxStream.RunWriter`). That fewer lie between any two flushes is not enough (`RlpxStream.StalledFlushes`).
- `RlpxStream::poll_read` makes a new receive future for each poll and drops it, with what it has read, when TCP is not
  ready. All frames are received exactly if no poll ends between the first and the last byte of one
  (`RlpxReader.RunReader`). One stall there is enough (`RlpxReader.StallCuts`); without stalls it cannot happen
  (`RlpxReader.FlowsUncut`).
- `rlp_item` adds an announced length to the header length in `usize`. A peer's length of at least 2^64 - 9 overflows
  the sum, and the task panics: at the sum in a build with overflow checks, else at the slice. `Rlp.PanicsIff` says
  exactly when, and so do `HandshakeBodies.AuthPanicsIff` and `HandshakeBodies.AckPanicsIff` of auth and ack and
  `Hello.PanicsAt` of the Hello. A Hello of ten bytes reaches the panic (`RlpxAgreement.PanicHelloCrashes`), and so do
  nine bytes as an ack (`RlpxAgreement.PanicAckCrashes`) or as an auth sealed to the key of the server, where no
  signature has been checked yet (`RlpxAgreement.PanicAuthCrashes`).
- Flat auth and ack bodies are told from RLP lists by their first byte, so a signature that starts with 0xc0 or from
  0xf7 on, or a key that starts from 0xc0 on, is refused (`HandshakeBodies.FlatAuthIff`, `HandshakeBodies.FlatAckIff`).
- A `poll_write` that returns an error may have committed its buffer, whose bytes the peer may still get
  (`Bip324Stream.Bip324Stream.PollWrite` says exactly when).
- A ready `RlpxStream::poll_flush` does not cover bytes written while an earlier frame was still being flushed
  (`RlpxStream.RlpxStream.PollFlush` says exactly when it does).
- `socks5.rs` notes that ARK-frame bounds domains by 253 bytes; only the builders do, and the readers accept 255.
- The idle timeout of the NAT table is checked by forwards only: a mapping ends with the first forward, to whatever
  address, that comes 60 seconds or more after its last use, and until then a reply revives it (`NatTable.KnownIff`,
  `NatTable.LateReply`, `NatTable.LateForward`). Which of several oldest mappings a full table evicts is open in the
  source (`NatTable.TieEitherWay`).

## Model

| member | source | states |
|---|---|---|
| `FsChaCha20.FsChaCha20.constructor` | ark-core/src/bip324/cipher.rs:56-64 | a new cipher has the initial key, both counters at zero and no buffered key stream |
| `FsChaCha20.FsChaCha20.FillKeystream` | ark-core/src/bip324/cipher.rs:66-83 | the loop buffers whole blocks of the current key until `n` bytes are there |
| `FsChaCha20.FsChaCha20.GetKeystreamBytes` | ark-core/src/bip324/cipher.rs:86-90 | the first `n` bytes of the refilled buffer leave it |
| `FsChaCha20.FsChaCha20.Crypt` | ark-core/src/bip324/cipher.rs:92-103 | the object changes exactly as the value that `RefinesBip324` is about |
| `FsChaCha20.KeystreamPrefix` | ark-core/src/bip324/cipher.rs:66-83 | fewer blocks of an epoch are a prefix of more blocks |
| `FsChaCha20.DrawBuffered` | ark-core/src/bip324/cipher.rs:86-90 | drawing no more than is buffered makes no block and leaves the rest |
| `FsChaCha20.FillChunk` | ark-core/src/bip324/cipher.rs:66-83 | inside an epoch, filling for three bytes takes one block or none, and the buffer stays a piece of the epoch key stream |
| `FsChaCha20.DrawChunk` | ark-core/src/bip324/cipher.rs:66-90 | inside an epoch, drawing three bytes returns exactly the next three of the epoch key stream |
| `FsChaCha20.CryptChunk` | ark-core/src/bip324/cipher.rs:92-103 | chunk `n` is combined with bytes 3(n mod 224).. of epoch n/224, and the object moves to the state after `n + 1` chunks, over a rekey too |
| `FsChaCha20.RefinesBip324` | ark-core/src/bip324/cipher.rs:66-103 | main: over any number of 3-byte chunks the lazy object equals the definition in BIP 324, where each epoch key is bytes 672..704 of the key stream before |
| `FsChaCha20.BufferBelongsToEpoch` | ark-core/src/bip324/cipher.rs:92-103 | main: at every rekey the buffer is empty, and at any time it holds key stream of the current epoch only, although it is never cleared |
| `FsChaCha20.CryptInverse` | ark-core/src/bip324/cipher.rs:92-103 | a receiver in the same state recovers any chunk and ends in the same state as the sender |
| `FsChaCha20Poly1305.FsChaCha20Poly1305.constructor` | ark-core/src/bip324/cipher.rs:120-125 | a new cipher has packet counter zero and an empty life |
| `FsChaCha20Poly1305.FsChaCha20Poly1305.Encrypt` | ark-core/src/bip324/cipher.rs:137-151 | one packet and its possible rekey; the nonces used on the object stay those of its life |
| `FsChaCha20Poly1305.FsChaCha20Poly1305.Decrypt` | ark-core/src/bip324/cipher.rs:155-169 | a failed decryption is one AEAD call and changes neither key nor counter; a successful one advances as encryption does |
| `FsChaCha20Poly1305.FsChaCha20Poly1305.MaybeRekey` | ark-core/src/bip324/cipher.rs:171-190 | after every 224th packet the key is replaced by 32 bytes sealed under the rekey nonce; `RefinesBip324` gives the key of every packet |
| `FsChaCha20Poly1305.NonceInjective` | ark-core/src/bip324/cipher.rs:127-133 | two nonces are equal exactly when counter and rekeyings are |
| `FsChaCha20Poly1305.CallsDiffer` | ark-core/src/bip324/cipher.rs:137-190 | two AEAD calls use the same nonce exactly when they are for the same packet, or its rekey |
| `FsChaCha20Poly1305.TraceCalls` | ark-core/src/bip324/cipher.rs:137-190 | the calls so far are for packets up to the one that is due, and that one was tried iff the last try failed |
| `FsChaCha20Poly1305.CallsRepeatIff` | ark-core/src/bip324/cipher.rs:155-169 | a call is repeated exactly if something is tried after a failed decryption |
| `FsChaCha20Poly1305.SameNonceSamePacket` | ark-core/src/bip324/cipher.rs:127-190 | calls that share a nonce try the same packet |
| `FsChaCha20Poly1305.NoncesNeverRepeat` | ark-core/src/bip324/cipher.rs:127-190 | main: over a whole life with fewer than 2^64 packets no two AEAD calls, packet or rekey, share a nonce, exactly unless something is tried after a failed decryption; so an encrypting instance never repeats one |
| `FsChaCha20Poly1305.OpenInvertsSeal` | ark-core/src/bip324/cipher.rs:137-169 | decryption in the same state returns the text and ends in the state of the sender |
| `FsChaCha20Poly1305.Lockstep` | ark-core/src/bip324/cipher.rs:137-190 | main: the same over every message sequence, across all rekeys |
| `FsChaCha20Poly1305.SealPacket` | ark-core/src/bip324/cipher.rs:137-190 | packet `n` is sealed under the key of its epoch, and the object moves on to packet `n + 1`, over a rekey too |
| `FsChaCha20Poly1305.RefinesBip324` | ark-core/src/bip324/cipher.rs:127-190 | main: over any number of packets the rekeying object equals the definition in BIP 324: each packet is sealed with its associated data under the key of its epoch, which is the first 32 bytes of 32 zero bytes sealed under the key before, and a nonce of its number in the epoch and the number of the epoch |
| `FsChaCha20Poly1305.OtherAadRefused` | ark-core/src/bip324/cipher.rs:155-169 | what is sealed with some associated data does not open with other data that the AEAD tells apart from it |
| `Packets.EncPacket` | ark-core/src/bip324/cipher.rs:200-222 | a packet is the encrypted length followed by the sealed header and contents; both ciphers advance once |
| `Packets.ReceiveLength` | ark-core/src/bip324/cipher.rs:228-234 | the length of the AEAD part that the three decrypted bytes announce |
| `Packets.ReceiveContents` | ark-core/src/bip324/cipher.rs:240-251 | contents, decoy, or authentication failure, which leaves the cipher alone |
| `Packets.PacketRoundTrip` | ark-core/src/bip324/cipher.rs:200-251 | main: the length announces exactly the ciphertext, the contents come back, a decoy is recognised, and the receive ciphers end as the send ciphers |
| `Packets.DecoyIff` | ark-core/src/bip324/cipher.rs:240-252 | for any header byte that a peer seals, the packet is a decoy exactly if the top bit is set |
| `Packets.RejectedIff` | ark-core/src/bip324/cipher.rs:240-252 | a body is rejected exactly if the AEAD does not open it under the nonce of the packet that is due |
| `Packets.EncodesAsBip324` | ark-core/src/bip324/cipher.rs:200-223 | the encoder writes packet `n` of a direction as BIP 324 defines it from the two initial keys alone |
| `Receiving.RunAppend` | ark-core/src/bip324/mod.rs:85-182 | receiving byte by byte does not depend on how the bytes are cut |
| `Receiving.RunLength` | ark-core/src/bip324/mod.rs:113-138 | bytes of a length field collect, and the third one decrypts it, once |
| `Receiving.RunBody` | ark-core/src/bip324/mod.rs:140-179 | bytes of a body collect, and the last one decrypts it |
| `Receiving.ArriveLength` | ark-core/src/bip324/mod.rs:113-138 | what up to three bytes behind a packet border amount to |
| `Receiving.ArriveBody` | ark-core/src/bip324/mod.rs:140-179 | what up to a whole body behind a length field amounts to |
| `Receiving.RunGrows` | ark-core/src/bip324/mod.rs:158-179 | later bytes take back no packet, and after an authentication failure nothing ever changes |
| `Receiving.EncodeSnoc` | ark-core/src/bip324/cipher.rs:200-222 | writing one more packet extends the wire by its encryption |
| `Receiving.WireIsBip324` | ark-core/src/bip324/cipher.rs:200-223 | main: the wire of every sequence of packets is, byte for byte, the one that BIP 324 defines from the two initial keys and the packet numbers, across all rekeys of both ciphers |
| `Receiving.RunPacket` | ark-core/src/bip324/cipher.rs:200-251 | a whole packet takes the receiver to the next border with its contents, or with nothing for a decoy |
| `Receiving.RunAll` | ark-core/src/bip324/cipher.rs:200-251 | any packet sequence is received as sent, without its decoys |
| `Receiving.ReceivedPrefix` | ark-core/src/bip324/mod.rs:85-182 | main: on any part of the bytes of a sender the receiver has not failed and has decrypted a prefix of the packets, and all of them once all bytes are there |
| `Tcp.Pipe.PollRead` | ark-core/src/bip324/mod.rs:116-129 | TCP as an adversary: any prefix of the bytes under way, an error, or not ready, each stop on record |
| `Tcp.Pipe.PollWrite` | ark-core/src/bip324/mod.rs:202-212 | TCP accepts any prefix of the bytes offered, fails, or is not ready |
| `Bip324Stream.Bip324Stream.constructor` | ark-core/src/bip324/mod.rs:68-80 | a new stream starts idle at a packet border in both directions |
| `Bip324Stream.Bip324Stream.FillLength` | ark-core/src/bip324/mod.rs:113-130 | partial reads of the length field survive a Pending; an end of stream is an error |
| `Bip324Stream.Bip324Stream.FinishLength` | ark-core/src/bip324/mod.rs:131-137 | the three bytes are decrypted exactly once, whatever polls follow |
| `Bip324Stream.Bip324Stream.FillBody` | ark-core/src/bip324/mod.rs:140-157 | partial reads of the body survive a Pending; after a rejected body no more is read |
| `Bip324Stream.Bip324Stream.FinishBody` | ark-core/src/bip324/mod.rs:158-178 | a body becomes a packet, a skipped decoy, or a rejection that stays |
| `Bip324Stream.Bip324Stream.Serve` | ark-core/src/bip324/mod.rs:92-99 | buffered contents are served first, in order and without loss |
| `Bip324Stream.Bip324Stream.PollRead` | ark-core/src/bip324/mod.rs:85-182 | main: for every fragmentation the fields hold what the byte-at-a-time receiver makes of the bytes read; a Ready returns one new packet cut to the buffer; Pending, errors and end of stream are reported only when TCP did so in this poll; after one authentication failure every later poll fails and no packet appears; it terminates |
| `Bip324Stream.Bip324Stream.WriteSome` | ark-core/src/bip324/mod.rs:202-212 | one partial write moves bytes from `flush_buf` to TCP in order |
| `Bip324Stream.Bip324Stream.DrivePendingWrite` | ark-core/src/bip324/mod.rs:191-214 | pending bytes are offered to TCP in order, without encrypting again, as long as it takes some; what is left follows from its answers |
| `Bip324Stream.Bip324Stream.Commit` | ark-core/src/bip324/mod.rs:256-263 | a buffer is encrypted once, as one packet behind those before |
| `Bip324Stream.Bip324Stream.PollWrite` | ark-core/src/bip324/mod.rs:219-273 | main: every accepted buffer is encrypted once as one packet and its bytes are in TCP or pending, in order; which buffer is encrypted and how much of it TCP has taken in this very call follows from its answers; Ready leaves something unsent only if TCP was not ready; and the fate of a failed write is exact |
| `Bip324Stream.Bip324Stream.PollFlush` | ark-core/src/bip324/mod.rs:275-308 | Ready exactly if TCP took everything that was pending and its own flush was ready |
| `Bip324Session.LinkedDelivers` | ark-core/src/bip324/mod.rs:85-308 | main: bytes delivered are a prefix of bytes committed, all of them once the wire is drained, and authentication never fails |
| `Bip324Session.ReceivedAll` | ark-core/src/bip324/mod.rs:85-308 | a drained connection has delivered the packets one for one |
| `Bip324Session.ReaderState` | ark-core/src/bip324/mod.rs:85-182 | the packets of the poll reader are those of the byte-at-a-time receiver, and it has rejected iff that one has failed |
| `Bip324Session.VisiblePackets` | ark-core/src/bip324/mod.rs:219-273 | written buffers travel as ordinary packets, so none is skipped as a decoy |
| `Bip324Session.MakeWrite` | ark-core/src/bip324/mod.rs:219-273 | a write keeps both directions linked, and its buffer is committed and offered to TCP as its answers say |
| `Bip324Session.MakeFlush` | ark-core/src/bip324/mod.rs:275-308 | a flush keeps both directions linked and offers what is pending |
| `Bip324Session.MakeRead` | ark-core/src/bip324/mod.rs:85-182 | a read keeps both directions linked; Ready with no bytes happens only for an empty caller buffer |
| `Bip324Session.MakeCall` | ark-core/src/bip324/mod.rs:85-308 | each call keeps the invariant of both directions and accounts for the bytes it accepts and returns |
| `Bip324Session.RunSchedule` | ark-core/src/bip324/mod.rs:85-308 | main: over every interleaving of writes, flushes and reads at both ends and every behaviour of TCP, what one end has read is a prefix of what the other has committed, and equal once drained; committed is what the writes accepted as long as no poll to write has failed; what each writer has encrypted and TCP has not taken follows from the calls and the answers of TCP |
| `Bip324Session.MakeStep` | ark-core/src/bip324/mod.rs:85-308 | one call at either end keeps all of this |
| `Bip324Session.QueueStep` | ark-core/src/bip324/mod.rs:191-308 | one more call moves the writer at its own end only |
| `Bip324Session.Record` | ark-core/src/bip324/mod.rs:85-308 | how one more call extends the bytes returned and accepted at an end |
| `ByteSource.ByteSource.ReadExact` | ark-core/src/bip324/handshake.rs:176-180 | exactly `n` bytes in order, or the end of the stream |
| `EncryptedStream.EncryptedStream.RecvOne` | ark-core/src/bip324/handshake.rs:153-169 | one packet of the blocking reader, decoy or not, as the byte-at-a-time receiver sees it |
| `EncryptedStream.EncryptedStream.RecvPacket` | ark-core/src/bip324/handshake.rs:153-169 | the blocking reader returns the next packet of the byte-at-a-time receiver, skips decoys, and fails to authenticate iff that receiver does |
| `Readers.ReadersAgree` | ark-core/src/bip324/handshake.rs:153-169 | main: a poll reader and a blocking reader that started with the same ciphers and have taken the same bytes have the same packets and the same verdict on authentication |
| `SessionKeys.DeriveSessionKeys` | ark-core/src/bip324/handshake.rs:55-99 | both garbage terminators have 16 bytes |
| `SessionKeys.KeysMirror` | ark-core/src/bip324/handshake.rs:55-99 | each side sends with what the other receives with, and both have the same session id |
| `SessionKeys.Labels` | ark-core/src/bip324/handshake.rs:55-71 | salt, labels and the version 1 prefix, byte for byte |
| `SessionKeys.InitiatorKeys` | ark-core/src/bip324/handshake.rs:63-99 | which label each key, the session identifier and the terminators of the initiator come from; all counters start at zero |
| `SessionKeys.KeysDistinct` | ark-core/src/bip324/handshake.rs:63-99 | main: where HKDF gives different keys for the different labels, no two of the session identifier and the four keys of a side are equal |
| `SkipGarbage.SkipGarbage` | ark-core/src/bip324/handshake.rs:268-293 | main: succeeds iff the terminator occurs at an offset of at most 4094, then returns exactly the bytes before its first occurrence and consumes those and the 16 behind |
| `Bip324Handshake.TailProgress` | ark-core/src/bip324/handshake.rs:302-453 | a reader on the right track never breaks, finds exactly the garbage that was sent, and waits only for bytes not yet sent |
| `Bip324Handshake.SearchAgrees` | ark-core/src/bip324/handshake.rs:268-293 | the processes skip garbage as `SkipGarbage` does: same success, same bytes, same rest, on every input |
| `Bip324Handshake.VersionLengths` | ark-core/src/bip324/handshake.rs:314-340 | the empty version packet is received with the garbage as associated data |
| `Bip324Handshake.OtherGarbageRefused` | ark-core/src/bip324/handshake.rs:324-343 | a version packet does not open under other garbage than the one sent, where the AEAD tells the two apart |
| `Bip324Handshake.BrokenIff` | ark-core/src/bip324/handshake.rs:335-343 | a side breaks off at the version packet exactly if it does not open with the garbage found as associated data |
| `Bip324Handshake.AppBrokenIff` | ark-core/src/bip324/handshake.rs:421-462 | the responder breaks off at the first packet exactly if it does not open or carries no marker, and skips it exactly if it is a decoy |
| `Bip324Handshake.HonestWorld` | ark-core/src/bip324/handshake.rs:302-453 | shared secret and keys of the two sides fit together |
| `Bip324Handshake.SentAsBip324` | ark-core/src/bip324/handshake.rs:302-420 | main: what each side sends over the handshake, byte for byte, from the shared secret: key, garbage, terminator, the empty version packet as packet 0 with the garbage authenticated, and the first packet of the user |
| `Bip324Handshake.StepForward` | ark-core/src/bip324/handshake.rs:302-453 | every step of either process keeps the invariant over both states and both channels and lowers the measure |
| `Bip324Handshake.RunOnTrack` | ark-core/src/bip324/handshake.rs:302-453 | every reachable state satisfies the invariant, and the measure bounds the length of the run |
| `Bip324Handshake.SomebodyMoves` | ark-core/src/bip324/handshake.rs:302-453 | before completion one of the two processes can take a step |
| `Bip324Handshake.ResponderNotBlocked` | ark-core/src/bip324/handshake.rs:370-430 | the responder can move while its version packet is not out |
| `Bip324Handshake.ResponderDrains` | ark-core/src/bip324/handshake.rs:415-453 | once the initiator is through, the responder can move until it is |
| `Bip324Handshake.TrackIsSound` | ark-core/src/bip324/handshake.rs:302-453 | on track no side is broken and each has exactly the garbage of the other |
| `Bip324Handshake.HandshakeCompletes` | ark-core/src/bip324/handshake.rs:302-453 | main: every run is bounded and can be prolonged until both sides are through, with the send ciphers of each equal to the receive ciphers of the other and the user identifier delivered; each side authenticates exactly the garbage the other sent |
| `Bip324Handshake.V1KeyIsForwarded` | ark-core/src/bip324/handshake.rs:371-378 | with a key that starts like a version 1 message every run has at most three states and goes on until the responder forwards, with the 16 bytes consumed; so that assumption is needed |
| `Ark1.ParseArk1` | ark-core/src/transport.rs:147-155 | an accepted marker has 20 bytes and a 16-byte identifier |
| `Ark1.ParseInvertsPayload` | ark-core/src/transport.rs:138-155 | the identifier and the bytes behind the marker come back |
| `Ark1.MarkerIff` | ark-core/src/transport.rs:138-155 | a payload carries a uuid exactly if it starts with the marker and has 20 bytes or more |
| `Framing.FrameState.constructor` | ark-core/src/rlpx/framing.rs:38-52 | key stream at position zero and the MAC seeded |
| `Framing.FrameState.EncodeFrame` | ark-core/src/rlpx/framing.rs:59-92 | the object changes as the value function that the lockstep lemmas are about |
| `Framing.FrameState.DecodeFrameHeader` | ark-core/src/rlpx/framing.rs:102-120 | a MAC mismatch leaves the key stream position; else the 3-byte size |
| `Framing.FrameState.DecodeFrameData` | ark-core/src/rlpx/framing.rs:126-150 | a short or forged frame is refused before anything is decrypted |
| `Framing.FrameState.UpdateHeaderMac` | ark-core/src/rlpx/framing.rs:160-173 | the header MAC step |
| `Framing.FrameState.UpdateFrameMac` | ark-core/src/rlpx/framing.rs:179-188 | the frame MAC step |
| `Framing.Padded` | ark-core/src/rlpx/framing.rs:74-75 | the next multiple of 16 |
| `Framing.PaddedMask` | ark-core/src/rlpx/framing.rs:74-75 | the mask `(n + 15) & !15` on 64 bits is that division, below the overflow of the sum |
| `Framing.RecvFrame` | ark-core/src/rlpx/handshake.rs:73-86 | one frame from a stream: header, then the padded body and its MAC |
| `Framing.EncodedParts` | ark-core/src/rlpx/framing.rs:59-92 | a frame is a header part and a data part, in that order |
| `Framing.KeyedTwice` | ark-core/src/rlpx/framing.rs:59-150 | the receiver key stream at the same position undoes the sender |
| `Framing.HeaderLockstep` | ark-core/src/rlpx/framing.rs:59-120 | the decoder gets the size modulo 2^24 and stands where the encoder stands |
| `Framing.DataLockstep` | ark-core/src/rlpx/framing.rs:59-150 | the padded data comes back cut to size, with equal state |
| `Framing.FrameLockstep` | ark-core/src/rlpx/framing.rs:59-188 | main: a frame shorter than 2^24 is received as sent, leaving exactly the bytes behind it, with equal key stream position and MAC |
| `Framing.PartialFrame` | ark-core/src/rlpx/handshake.rs:73-86 | part of a frame makes the receiver wait, never fail or return |
| `Framing.FrameReturnsIff` | ark-core/src/rlpx/framing.rs:59-150 | main: the encoder accepts any length, but a frame comes back exactly when it is shorter than 2^24 |
| `Framing.LongFrame` | ark-core/src/rlpx/framing.rs:59-150 | a longer frame does not come back |
| `Framing.SendSnoc` | ark-core/src/rlpx/framing.rs:59-92 | one more frame extends the wire |
| `Framing.Lockstep` | ark-core/src/rlpx/framing.rs:59-188 | main: any sequence of frames arrives as sent, and encoder and decoder end in the same state |
| `Framing.LockstepIff` | ark-core/src/rlpx/framing.rs:59-188 | main: a sequence of frames comes back exactly when each of them is shorter than 2^24 bytes |
| `Framing.EncodesAsDevp2p` | ark-core/src/rlpx/framing.rs:59-92 | main: a frame, byte for byte, as the devp2p specification writes it: header and padded contents under one key stream, each with its tag |
| `Framing.HeaderAcceptedIff` | ark-core/src/rlpx/framing.rs:102-120 | a header is accepted exactly with the tag of the running MAC over it |
| `Framing.FrameAcceptedIff` | ark-core/src/rlpx/framing.rs:126-150 | a frame is accepted exactly with the tag of the running MAC over it |
| `Framing.MacCoversHeader` | ark-core/src/rlpx/framing.rs:160-177 | encrypted headers that differ leave different inputs of the MAC |
| `Framing.MacCoversFrame` | ark-core/src/rlpx/framing.rs:126-187 | so do encrypted frames that differ, at the receiver |
| `Framing.MacCoversContents` | ark-core/src/rlpx/framing.rs:59-92 | so do contents that differ, at the sender |
| `Framing.MacCoversHistory` | ark-core/src/rlpx/framing.rs:59-187 | main: two series of frames of the same sizes that differ anywhere leave different inputs of the MAC, so every later tag covers everything sent before |
| `RlpxStream.RlpxStream.constructor` | ark-core/src/rlpx/mod.rs:72-82 | a new writer has nothing buffered |
| `RlpxStream.RlpxStream.PollWrite` | ark-core/src/rlpx/mod.rs:126-133 | a write only buffers, and always everything |
| `RlpxStream.RlpxStream.PollFlush` | ark-core/src/rlpx/mod.rs:135-180 | main: every accepted byte is in exactly one frame encrypted once, or still in `write_buf`, in order; all of `write_buf` becomes a frame exactly if no frame was pending on entry; Ready means no encrypted byte is unsent, and says when that is everything; how much stays unsent follows from the answers of TCP |
| `RlpxStream.RlpxStream.TakeFrame` | ark-core/src/rlpx/mod.rs:141-151 | all of `write_buf` becomes one frame |
| `RlpxStream.RlpxStream.WriteSome` | ark-core/src/rlpx/mod.rs:155-171 | one partial write moves bytes to TCP in order |
| `RlpxStream.RlpxStream.Drain` | ark-core/src/rlpx/mod.rs:152-176 | the pending frame is written without being encrypted again, as far as the answers of TCP let it |
| `RlpxStream.RlpxStream.Arrives` | ark-core/src/rlpx/mod.rs:126-180 | if all frames are shorter than 2^24 bytes, the receiver has everything but `write_buf` and stands in the state of the writer |
| `RlpxStream.RlpxStream.ArrivesIff` | ark-core/src/rlpx/mod.rs:126-180 | a receiver of all that TCP got has the frames exactly if each of them is shorter than 2^24 bytes |
| `RlpxStream.MakeCall` | ark-core/src/rlpx/mod.rs:126-180 | one write or flush takes the writer where the call and the answers of TCP say |
| `RlpxStream.AfterSnoc` | ark-core/src/rlpx/mod.rs:126-180 | one more call takes the writer one step on |
| `RlpxStream.InTimeSnoc` | ark-core/src/rlpx/mod.rs:141-151 | one more call keeps all flushes in time exactly if it is no flush that finds no frame pending and 2^24 bytes or more |
| `RlpxStream.ShortIffInTime` | ark-core/src/rlpx/mod.rs:141-151 | for every schedule and all answers of TCP all frames are shorter than 2^24 bytes exactly if each flush that finds no frame pending finds fewer bytes |
| `RlpxStream.RunWriter` | ark-core/src/rlpx/mod.rs:126-180 | main: over every schedule of writes and flushes and all answers of TCP, the frames, the buffer and what is pending are those that follow from schedule and answers; everything written is in a frame or buffered, in order; and the frames arrive exactly if each flush that finds no frame pending finds fewer than 2^24 bytes |
| `RlpxStream.StallingFrames` | ark-core/src/rlpx/mod.rs:141-151 | three writes of 2^23 bytes or more, each with a flush, over a TCP that is not ready twice: two frames, the second with two of the writes |
| `RlpxStream.StalledFlushes` | ark-core/src/rlpx/mod.rs:126-180 | main: so fewer than 2^24 bytes between any two flushes are not enough: on that schedule and with these answers everything is sent and does not arrive |
| `RlpxReader.SentSize` | ark-core/src/rlpx/framing.rs:59-92 | frames take 48 bytes each and their padded contents |
| `RlpxReader.ReceivedMore` | ark-core/src/rlpx/handshake.rs:73-86 | a frame received does not depend on what follows it |
| `RlpxReader.ReceiveSnoc` | ark-core/src/rlpx/handshake.rs:73-86 | a frame read behind others is read as one more of the same stream |
| `RlpxReader.HonestFrame` | ark-core/src/rlpx/handshake.rs:73-86 | on any part of an honest wire the blocking reader gets the next frame as sent or runs out of bytes |
| `RlpxReader.HonestPrefix` | ark-core/src/rlpx/handshake.rs:73-86 | the frames that make up a part of an honest wire are the first ones sent, and the receiver stands where the sender stood |
| `RlpxReader.ReadPart` | ark-core/src/rlpx/handshake.rs:74-84 | `read_exact` over TCP in pieces: all bytes, or fewer, which are dropped with the future |
| `RlpxReader.PollFrame` | ark-core/src/rlpx/mod.rs:104-116 | one poll of a new receive future ends as the blocking reader does on the bytes that it takes |
| `RlpxReader.RlpxReader.constructor` | ark-core/src/rlpx/mod.rs:72-82 | a new reader has nothing buffered |
| `RlpxReader.RlpxReader.Serve` | ark-core/src/rlpx/mod.rs:95-102 | serves from the buffer in order |
| `RlpxReader.RlpxReader.Accept` | ark-core/src/rlpx/mod.rs:113-119 | a new frame replaces the served one |
| `RlpxReader.PollHeader` | ark-core/src/rlpx/handshake.rs:74-77 | the header of a frame, or the end of the poll with it |
| `RlpxReader.RlpxReader.Receive` | ark-core/src/rlpx/mod.rs:104-121 | a new receive future takes what the answers of TCP give it, ends as the blocking reader does on these bytes, and loses them if it does not end with a frame |
| `RlpxReader.RlpxReader.PollRead` | ark-core/src/rlpx/mod.rs:88-122 | main: every byte taken from TCP is in a received frame or was lost by a poll that ended within one; as long as none is lost, the reader has exactly the frames and the state of the blocking reader on the same bytes |
| `RlpxReader.HonestTaken` | ark-core/src/rlpx/handshake.rs:73-86 | on an honest wire the sizes of the frames tell how much a poll takes |
| `RlpxReader.HonestPoll` | ark-core/src/rlpx/handshake.rs:73-86 | up to the end of a frame of an honest wire the blocking reader gets the frame as sent, or runs out of bytes |
| `RlpxReader.ReaderEnds` | ark-core/src/rlpx/mod.rs:88-122 | on an honest wire that has fully arrived, all frames were received exactly if no byte was lost |
| `RlpxReader.MakeRead` | ark-core/src/rlpx/mod.rs:88-122 | one poll takes the reader where the frame sizes and the answers of TCP say, and fails to authenticate only after a loss |
| `RlpxReader.CutStays` | ark-core/src/rlpx/mod.rs:104-108 | what a poll has lost stays lost |
| `RlpxReader.RunReader` | ark-core/src/rlpx/mod.rs:88-122 | main: over every schedule of reads and all answers of TCP, what is received follows from the sizes of the frames sent: as long as no poll ends with part of a frame read they are received in order, callers get a prefix of the contents, and nothing fails to authenticate; after such a poll they never all are |
| `RlpxReader.StallCuts` | ark-core/src/rlpx/mod.rs:104-108 | main: wherever a frame begins, some bytes of it and then a TCP that is not ready, fails or ends make a poll end within it |
| `RlpxReader.StalledRead` | ark-core/src/rlpx/mod.rs:104-108 | so one byte and then a TCP that is not ready: the frames are never all received, whatever follows |
| `RlpxReader.PartFlows` | ark-core/src/rlpx/handshake.rs:74-84 | where TCP never stalls `read_exact` gets all it asks for |
| `RlpxReader.FlowsUncut` | ark-core/src/rlpx/mod.rs:88-122 | main: where TCP never stalls no poll ends within a frame |
| `Ecies.ConcatKdf` | ark-core/src/rlpx/ecies.rs:140-150 | encryption key and MAC key have 16 bytes each |
| `Ecies.EciesEncryptWithAad` | ark-core/src/rlpx/ecies.rs:39-83 | point, iv, ciphertext and tag in wire order, with the MAC over additional data, iv and ciphertext |
| `Ecies.EciesDecryptWithAad` | ark-core/src/rlpx/ecies.rs:91-133 | too short, bad point, bad MAC, or the text, in that order |
| `Ecies.SealedParts` | ark-core/src/rlpx/ecies.rs:74-81 | the wire layout: 65, 16, ciphertext, 32 |
| `Ecies.OpenedIffSealed` | ark-core/src/rlpx/ecies.rs:39-133 | main: decryption accepts exactly what some text seals to under the point and iv that the message shows, and returns that text |
| `Ecies.DecryptInvertsEncrypt` | ark-core/src/rlpx/ecies.rs:39-133 | what is encrypted to a public key comes back, 113 bytes longer on the wire |
| `Ecies.SealsAsDevp2p` | ark-core/src/rlpx/ecies.rs:39-83 | the message as a formula: both keys from SHA-256 of counter 1 and the shared coordinate, the ciphertext, and the HMAC over additional data, iv and ciphertext |
| `Ecies.AcceptedIff` | ark-core/src/rlpx/ecies.rs:91-133 | main: a message is accepted exactly if it is long enough, shows a point, and ends with the HMAC of the additional data and of everything between point and tag; else which error it is |
| `Rlp.ReadLength` | ark-core/src/rlpx/handshake.rs:490-512 | the big-endian length loop |
| `Rlp.ReadItem` | ark-core/src/rlpx/handshake.rs:482-514 | all branches of the item decoder on any input, with the sum of header and announced length in 64 bits |
| `Rlp.RlpItem` | ark-core/src/rlpx/handshake.rs:482-514 | a decoded item takes at least one byte and at most all |
| `Rlp.SumWraps` | ark-core/src/rlpx/handshake.rs:495-499 | only a length of eight bytes overflows the sum, and the sum then wraps to less than the header |
| `Rlp.PanicsIff` | ark-core/src/rlpx/handshake.rs:494-512 | main: decoding panics exactly on nine bytes or more that start with 0xbf or 0xff and announce a length of at least 2^64 - 9, with or without overflow checks |
| `Rlp.PanicItemPanics` | ark-core/src/rlpx/handshake.rs:494-512 | nine bytes of 0xff are such an input |
| `Rlp.BeLengthInverse` | ark-core/src/rlpx/handshake.rs:402-406 | a length without its leading zeros still reads as the same number |
| `Rlp.HeaderInverse` | ark-core/src/rlpx/handshake.rs:361-399 | short and long headers are undone, for strings and lists |
| `Rlp.BytesInverse` | ark-core/src/rlpx/handshake.rs:361-514 | main: a string followed by anything decodes to its content and exact length |
| `Rlp.ListInverse` | ark-core/src/rlpx/handshake.rs:387-514 | main: the same for a list |
| `Rlp.U64Inverse` | ark-core/src/rlpx/handshake.rs:377-514 | the same for a number |
| `Rlp.U64IsBytes` | ark-core/src/rlpx/handshake.rs:377-385 | a number is encoded as the string of its significant bytes |
| `Rlp.EncodingLengths` | ark-core/src/rlpx/handshake.rs:361-399 | an encoding adds at most nine bytes |
| `Rlp.BeLengthShortest` | ark-core/src/rlpx/handshake.rs:402-406 | no fewer bytes hold the length |
| `Rlp.EncodingShortest` | ark-core/src/rlpx/handshake.rs:361-374 | main: no shorter input decodes to the same string |
| `Rlp.KindTells` | ark-core/src/rlpx/handshake.rs:361-399 | the first byte tells strings from lists |
| `Rlp.DecodesIff` | ark-core/src/rlpx/handshake.rs:482-514 | main: the decoder accepts exactly the single bytes, short forms and long forms of a content, with any leading zeros of the length, whatever follows |
| `Hello.ParseHelloInner` | ark-core/src/rlpx/handshake.rs:446-475 | the detector on any input: a verdict, a malformed Hello, or a panic of the task |
| `Hello.ScanCaps` | ark-core/src/rlpx/handshake.rs:462-474 | the capability loop terminates and equals the recursive walk |
| `Hello.ParseHelloHasArk1` | ark-core/src/rlpx/handshake.rs:440-442 | a malformed Hello counts as one without ARK1; where the item decoder panics there is no verdict |
| `Hello.CapsPanicAt` | ark-core/src/rlpx/handshake.rs:464-473 | the capability loop panics exactly when a capability or name that it reaches overflows |
| `Hello.PanicsAt` | ark-core/src/rlpx/handshake.rs:446-475 | detection panics exactly when one of the items that it decodes announces an overflowing length |
| `Hello.PanicHelloPanics` | ark-core/src/rlpx/handshake.rs:446-451 | the ten bytes 0x00, 0xff and eight times 0xff are such a Hello |
| `Hello.CapsDetected` | ark-core/src/rlpx/handshake.rs:462-474 | over any capability list the loop finds ARK1 iff a capability has that name |
| `Hello.Ark1DetectedIff` | ark-core/src/rlpx/handshake.rs:440-475 | main: the same over any well-formed Hello whose encodings fit in memory, with any fields, items and bytes around it; none of these panics |
| `Hello.EncodeHelloDetected` | ark-core/src/rlpx/handshake.rs:414-475 | the Hello of the client is detected and that of the server is not |
| `Hello.HelloBytes` | ark-core/src/rlpx/handshake.rs:414-435 | the two Hellos, byte for byte |
| `Hello.OtherMessage` | ark-core/src/rlpx/handshake.rs:446-449 | a message with another identifier is no Hello |
| `HandshakeBodies.FieldAt` | ark-core/src/rlpx/handshake.rs:569-592 | a field has the length asked for and takes at least one byte |
| `HandshakeBodies.DecodeAuthBody` | ark-core/src/rlpx/handshake.rs:557-595 | a decoded auth has fields of the right lengths |
| `HandshakeBodies.FieldPanicsIff` | ark-core/src/rlpx/handshake.rs:569-592 | reading a field panics exactly when the item there overflows |
| `HandshakeBodies.AuthPanicsIff` | ark-core/src/rlpx/handshake.rs:557-595 | main: decoding an auth panics the task exactly when it is no flat body and the list, or one of the three fields as far as they are reached, announces an overflowing length |
| `HandshakeBodies.AckPanicsIff` | ark-core/src/rlpx/handshake.rs:523-550 | main: the same for an ack and its two fields |
| `HandshakeBodies.DecodeAckBody` | ark-core/src/rlpx/handshake.rs:523-550 | a decoded ack has fields of the right lengths |
| `HandshakeBodies.AuthInverse` | ark-core/src/rlpx/handshake.rs:557-595 | main: an EIP-8 auth body gives back its fields for any further items and trailing bytes, and is never taken for the flat layout |
| `HandshakeBodies.AuthBytes` | ark-core/src/rlpx/handshake.rs:151-158 | the auth that is sent, byte for byte |
| `HandshakeBodies.FieldCut` | ark-core/src/rlpx/handshake.rs:569-592 | a longer field is cut and a shorter one refused |
| `HandshakeBodies.AckInverse` | ark-core/src/rlpx/handshake.rs:523-550 | main: the same for the ack |
| `HandshakeBodies.AckBytes` | ark-core/src/rlpx/handshake.rs:294-305 | the ack that is sent, byte for byte |
| `HandshakeBodies.FlatAuth` | ark-core/src/rlpx/handshake.rs:560-567 | with any bytes behind it a flat auth body decodes by offset unless it starts with 0xc0 or from 0xf7 on, and else as a list, which is refused if it starts with 0xc0 or 0xf7 |
| `HandshakeBodies.FlatAck` | ark-core/src/rlpx/handshake.rs:524-530 | the same for an ack, whose first byte must be below 0xc0; one from 0xc0 to 0xf7 is refused |
| `HandshakeBodies.HeaderLengths` | ark-core/src/rlpx/handshake.rs:482-514 | content of more than 55 bytes has a header of two bytes or more |
| `HandshakeBodies.FlatAuthIff` | ark-core/src/rlpx/handshake.rs:251-262 | main: the 162 bytes of an old auth give back their fields exactly when they start neither with 0xc0 nor from 0xf7 on, and are refused otherwise |
| `HandshakeBodies.FlatAckIff` | ark-core/src/rlpx/handshake.rs:184-194 | main: the 97 bytes of an old ack give back their fields exactly when they start below 0xc0, and are refused otherwise |
| `RlpxHandshake.ReadSealed` | ark-core/src/rlpx/handshake.rs:248-274 | both message formats, with the size prefix as additional data |
| `RlpxHandshake.WriteSealed` | ark-core/src/rlpx/handshake.rs:161-178 | the probe measures, and the size counts its own two bytes |
| `RlpxHandshake.SealedArrives` | ark-core/src/rlpx/handshake.rs:161-274 | the size prefix is the wire length, and the body, the exact bytes and the rest of the stream come out |
| `RlpxHandshake.SealedArrivesIff` | ark-core/src/rlpx/handshake.rs:161-274 | main: an auth or ack message arrives as sealed exactly if its length fits in the prefix and is not one of 1024 to 1279, whose prefix starts with 0x04 and reads as an old message |
| `RlpxHandshake.SealedPart` | ark-core/src/rlpx/handshake.rs:248-274 | part of a message is not yet a message |
| `RlpxHandshake.SizedBytes` | ark-core/src/rlpx/handshake.rs:161-178 | the size prefix is in the clear, counts itself, and is the additional data of the sealed body |
| `RlpxHandshake.OldArrives` | ark-core/src/rlpx/handshake.rs:248-274 | main: a message of the old format arrives as sealed, with any bytes behind it |
| `RlpxHandshake.OldPart` | ark-core/src/rlpx/handshake.rs:248-274 | part of it is not yet a message |
| `RlpxHandshake.DeriveRlpxKeys` | ark-core/src/rlpx/handshake.rs:604-620 | both secrets have 32 bytes |
| `RlpxHandshake.SecretsAsDevp2p` | ark-core/src/rlpx/handshake.rs:604-620 | both secrets as the hashes that the devp2p specification writes |
| `RlpxHandshake.NoncesMatter` | ark-core/src/rlpx/handshake.rs:604-620 | main: another nonce of either side gives other secrets, where Keccak does not collide on the inputs at hand |
| `RlpxHandshake.AckBelievedIff` | ark-core/src/rlpx/handshake.rs:195-221 | an ack is believed exactly if its body decodes and its key is a point |
| `RlpxHandshake.BelievedIff` | ark-core/src/rlpx/handshake.rs:276-292 | an auth is believed exactly if its body decodes, its key is a point, its recovery identifier is less than 4, and the signature recovers over the hash of static secret and nonce |
| `RlpxHandshake.RlpxEncryptedStream.constructor` | ark-core/src/rlpx/handshake.rs:223-225 | one frame state for each direction |
| `RlpxHandshake.SayHello` | ark-core/src/rlpx/handshake.rs:227-233 | the Hello of the initiator is written before the other one is read |
| `RlpxHandshake.DoInitiatorHandshake` | ark-core/src/rlpx/handshake.rs:122-234 | on any input, complete or not, the writes, the result and the rest of the stream are those of the run that `Agreement` is about |
| `RlpxHandshake.AnswerHello` | ark-core/src/rlpx/handshake.rs:335-354 | the Hello of the responder is written first; the ARK1 frame is read only if announced |
| `RlpxHandshake.DoResponderHandshake` | ark-core/src/rlpx/handshake.rs:240-355 | the same for the responder |
| `RlpxAgreement.BodySizes` | ark-core/src/rlpx/handshake.rs:151-168 | both bodies are short enough for the size prefix and never look like an old message |
| `RlpxAgreement.Texts` | ark-core/src/rlpx/handshake.rs:140-305 | the texts of auth and ack, byte for byte |
| `RlpxAgreement.AuthArrives` | ark-core/src/rlpx/handshake.rs:161-274 | the auth prefix is its length, and the responder gets its text and exact bytes |
| `RlpxAgreement.AckArrives` | ark-core/src/rlpx/handshake.rs:183-211 | the same for the ack |
| `RlpxAgreement.ClaimRecovered` | ark-core/src/rlpx/handshake.rs:279-292 | main: the responder recovers the static key, the ephemeral key behind the signature, and the nonce |
| `RlpxAgreement.InitiatorKeys` | ark-core/src/rlpx/handshake.rs:207-224 | the initiator derives the common secrets from the ack |
| `RlpxAgreement.ResponderKeys` | ark-core/src/rlpx/handshake.rs:318-332 | main: the responder derives the same secrets, and each side sends with the frame state the other receives with |
| `RlpxAgreement.SessionAsDevp2p` | ark-core/src/rlpx/handshake.rs:140-224 | main: what the signature is on, both secrets, and what both MACs start from: the secret combined with the nonce of the receiver, and the message of the sender |
| `RlpxAgreement.OldAuthAccepted` | ark-core/src/rlpx/handshake.rs:248-355 | main: the responder answers an auth of the old format as one with a prefix, exactly unless its signature starts with 0xc0 or from 0xf7 on |
| `RlpxAgreement.OldAuthPart` | ark-core/src/rlpx/handshake.rs:248-274 | part of such an auth makes it wait |
| `RlpxAgreement.OldAckAccepted` | ark-core/src/rlpx/handshake.rs:181-233 | the initiator goes on with an ack of the old format exactly if its key starts below 0xc0 |
| `RlpxAgreement.InitiatorCompletes` | ark-core/src/rlpx/handshake.rs:122-233 | with ack and Hello the initiator is connected and leaves the bytes behind them |
| `RlpxAgreement.ResponderDecides` | ark-core/src/rlpx/handshake.rs:335-354 | the outcome for any Hello and whatever follows: a panic or a real peer with the rest unread, or what becomes of the next frame |
| `RlpxAgreement.ResponderReadsMarker` | ark-core/src/rlpx/handshake.rs:342-354 | behind a Hello with ARK1 a marker frame makes a client and any other frame is refused |
| `RlpxAgreement.PanicHelloCrashes` | ark-core/src/rlpx/handshake.rs:335-354 | a peer that authenticates and sends that ten-byte Hello crashes the task of its handshake, whatever follows |
| `RlpxAgreement.PanicAuthCrashes` | ark-core/src/rlpx/handshake.rs:240-279 | main: nine bytes sealed to the key of the server crash the responder before it looks at a key or signature of the sender |
| `RlpxAgreement.PanicAckCrashes` | ark-core/src/rlpx/handshake.rs:181-207 | the same nine bytes as an ack crash the initiator |
| `RlpxAgreement.ResponderCompletes` | ark-core/src/rlpx/handshake.rs:240-355 | with auth, Hello and ARK1 frame the responder reports the uuid and trailing bytes that were sent |
| `RlpxAgreement.InitiatorWaits` | ark-core/src/rlpx/handshake.rs:122-233 | on any part of these bytes the initiator waits, having written its auth, and its Hello once the ack is complete |
| `RlpxAgreement.ResponderWaits` | ark-core/src/rlpx/handshake.rs:240-355 | on any part the responder waits, having written nothing, or its ack and Hello once the auth is complete |
| `RlpxAgreement.SentGrows` | ark-core/src/rlpx/handshake.rs:122-355 | neither side takes back a byte as more arrives |
| `RlpxAgreement.PlayOnTrack` | ark-core/src/rlpx/handshake.rs:122-355 | under every schedule of deliveries each side has part of what the other has sent |
| `RlpxAgreement.Agreement` | ark-core/src/rlpx/handshake.rs:122-355 | main: under every schedule no side fails, something is under way until both are through, and then both have matching frame states, before and behind the Hellos, and the responder has this uuid and these bytes |
| `RlpxAgreement.DeliveryProgress` | ark-core/src/rlpx/handshake.rs:122-355 | every delivery with bytes under way brings the end nearer |
| `ArkFrame.ParseAddrPort` | ark-core/src/arkframe.rs:397-436 | what it takes lies in the slice |
| `ArkFrame.ReadPort` | ark-core/src/arkframe.rs:271-274 | two bytes in big-endian order |
| `ArkFrame.ReadDomain` | ark-core/src/arkframe.rs:283-297 | the domain branch of the stream parser agrees with the slice parser |
| `ArkFrame.ReadAddrPort` | ark-core/src/arkframe.rs:267-301 | main: the stream parser accepts the same inputs as the slice parser, with the same target, and takes the same bytes |
| `ArkFrame.ReadRequestFull` | ark-core/src/arkframe.rs:246-256 | command and target of a request, or an error exactly when it is malformed, and the stream behind it |
| `ArkFrame.ParseInverse` | ark-core/src/arkframe.rs:320-347 | every address that can be written parses back, for domains of 1 to 255 bytes |
| `ArkFrame.ParseUnique` | ark-core/src/arkframe.rs:397-436 | whatever parses is exactly what its target is written as |
| `ArkFrame.RequestRoundTrip` | ark-core/src/arkframe.rs:210-256 | a request that builds is read back, and the bytes behind it stay |
| `ArkFrame.RequestIff` | ark-core/src/arkframe.rs:246-256 | main: a request is read exactly if one of the two commands and a parsable address are in front of the stream |
| `ArkFrame.UdpAssociateRoundTrip` | ark-core/src/arkframe.rs:234-256 | the same for UDP_ASSOCIATE |
| `ArkFrame.RequestBytes` | ark-core/src/arkframe.rs:192-243 | requests, byte for byte |
| `UdpDatagrams.ReadUdpDatagram` | ark-core/src/arkframe.rs:363-394 | one datagram from a stream, or the error of the branch that fails |
| `UdpDatagrams.BuildsIff` | ark-core/src/arkframe.rs:316-359 | main: the builder succeeds iff payload and domain are within limits; then the total is at most 65259, the u16 conversions are exact, and the second size check never fires |
| `UdpDatagrams.DatagramBytes` | ark-core/src/arkframe.rs:316-359 | a datagram frame, byte for byte |
| `UdpDatagrams.FramedArrives` | ark-core/src/arkframe.rs:363-394 | a frame is read as its datagram, leaving the bytes behind it |
| `UdpDatagrams.ReadIsFramed` | ark-core/src/arkframe.rs:363-394 | whatever is read is the frame of what it is read as |
| `UdpDatagrams.RebuildsIff` | ark-core/src/arkframe.rs:316-394 | main: a frame that was read is rebuilt to the same bytes iff its domain has at most 253 bytes and its payload at most 65000 |
| `UdpDatagrams.StreamRoundTrip` | ark-core/src/arkframe.rs:316-394 | main: any stream of built datagrams is read as that sequence and leaves the remainder |
| `UdpDatagrams.ReadAllConserves` | ark-core/src/arkframe.rs:363-394 | on any input the frames read and the remainder make up the input |
| `Socks5Udp.ParseUdpTarget` | ark-client/src/socks5.rs:288-322 | the header lies in the packet |
| `Socks5Udp.SameAsArkFrame` | ark-client/src/socks5.rs:288-322 | this third address parser agrees with those of ARK-frame |
| `Socks5Udp.HeaderParsesBackIff` | ark-client/src/socks5.rs:325-348 | main: a reply header parses back to its target iff the domain has 1 to 255 bytes |
| `Socks5Udp.HeaderUnique` | ark-client/src/socks5.rs:235-246 | a packet whose header parses is that header, as written, and its payload |
| `Socks5Udp.OutboundKeeps` | ark-client/src/socks5.rs:229-246 | main: any packet is dropped exactly if it has no header, and enters the tunnel exactly if it has one and domain and payload are within limits; the server then reads the same target and payload |
| `Socks5Udp.WrittenIsRecognized` | ark-client/src/socks5.rs:229-246 | every packet that a client writes with a header is recognized with its target and payload |
| `Socks5Udp.InboundKeeps` | ark-client/src/socks5.rs:251-266 | a datagram from the tunnel reaches the application with its source and payload |
| `ProbeHistory.ReplayMeans` | ark-server/src/probe_defense.rs:98-116 | a fold over the history decides what the definition over all earlier events decides |
| `ProbeHistory.CountingStep` | ark-server/src/probe_defense.rs:98-116 | how one event changes the set of failures that count |
| `ProbeHistory.TarpittedStep` | ark-server/src/probe_defense.rs:75-90 | only a trip makes an address tarpitted |
| `ProbeHistory.FewCount` | ark-server/src/probe_defense.rs:98-116 | fewer than ten failures ever count between calls |
| `ProbeHistory.RetainLater` | ark-server/src/probe_defense.rs:107-107 | pruning early and again later equals pruning later |
| `ProbeHistory.OnlyOwnFailuresMatter` | ark-server/src/probe_defense.rs:75-134 | main: queries, sweeps and the failures of other addresses change no answer about an address |
| `ProbeHistory.TarpitLasts` | ark-server/src/probe_defense.rs:98-116 | main: after a trip the address is tarpitted for exactly 300 seconds, whatever happens meanwhile |
| `ProbeTracker.ProbeTracker.constructor` | ark-server/src/probe_defense.rs:68-68 | an empty tracker answers as the empty history |
| `ProbeTracker.ProbeTracker.IsTarpittedAt` | ark-server/src/probe_defense.rs:75-90 | main: while the times of the calls do not decrease, true iff some failure tripped the tarpit less than 300 seconds ago, over the full history; in any order only within 300 seconds of a failure of the address, and the exact new record |
| `ProbeTracker.ProbeTracker.RecordFailureAt` | ark-server/src/probe_defense.rs:98-116 | main: while the times do not decrease, true iff the address is not tarpitted and its failures since the last trip, untarpitted, within 60 seconds and counting this one, reach 10; in any order only if ten failures, this one included, are less than 60 seconds old, and the exact new record |
| `ProbeTracker.ProbeTracker.Gc` | ark-server/src/probe_defense.rs:121-134 | while the times do not decrease, keeps exactly the addresses that are tarpitted or have a failure that still counts; in any order the exact new records, and how many are dropped |
| `ProbeTracker.ProbeTracker.FewStored` | ark-server/src/probe_defense.rs:44-50 | fewer than ten failures are stored for an address |
| `ProbeTracker.FailureMeans` | ark-server/src/probe_defense.rs:98-116 | the pruned record decides a failure as the full history does |
| `ProbeTracker.AnswersLater` | ark-server/src/probe_defense.rs:75-134 | what is no failure of an address leaves its record valid |
| `ProbeTracker.AllSwept` | ark-server/src/probe_defense.rs:125-132 | a sweep drops no record that still matters |
| `ProbeTracker.RetainWithin` | ark-server/src/probe_defense.rs:107-107 | pruning leaves failures of the address, and no more than pruning the full history would |
| `ProbeTracker.RecentSize` | ark-server/src/probe_defense.rs:98-116 | the recent failures of an address, counted over the history |
| `ProbeTracker.BackedFailed` | ark-server/src/probe_defense.rs:98-116 | main: in any order of the times a record stores failures of its address only, fewer than ten, and trips only on ten recent ones |
| `ProbeTracker.MixedTrips` | ark-server/src/probe_defense.rs:94-116 | over the history, nine failures at 0 s, one at 60 s and then one stamped 59 s trip |
| `ProbeTracker.LateStamp` | ark-server/src/probe_defense.rs:94-116 | the tracker does not trip on them, as the call at 60 s has pruned the nine |
| `NatTable.OldestExists` | ark-server/src/run.rs:472-476 | a table with entries has an oldest one |
| `NatTable.EvictThenExpire` | ark-server/src/run.rs:471-482 | main: evicting before expiring equals expiring first, so a live mapping is never evicted while an expired one is there |
| `NatTable.EvictedCrowded` | ark-server/src/run.rs:471-479 | when an entry is evicted, 256 other addresses have been in use since its last use |
| `NatTable.NatTable.constructor` | ark-server/src/run.rs:412-413 | a session starts with an empty table |
| `NatTable.NatTable.FindOldest` | ark-server/src/run.rs:472-476 | some entry with the least time |
| `NatTable.NatTable.Forward` | ark-server/src/run.rs:469-483 | main: over all interleavings at most 256 entries, each with the target last used for its address and not expired; the table after a forward |
| `NatTable.NatTable.Reply` | ark-server/src/run.rs:430-439 | main: a delivered reply carries the target most recently used for its source; a source that was used, with fewer than 256 others in use since, is known exactly if nothing was forwarded 60 seconds or more after its last use |
| `NatTable.KnownIff` | ark-server/src/run.rs:430-483 | main: the same of the table, and an address that 256 others were used after is not known; between these bounds, with ties in time, `TieEitherWay` shows both outcomes |
| `NatTable.TieCount` | ark-server/src/run.rs:471-479 | two oldest entries leave fewer than 256 addresses used later |
| `NatTable.TieEitherWay` | ark-server/src/run.rs:471-483 | main: of two oldest entries of a full table either may be evicted: with the same history an address is known or not, both with all that a session keeps |
| `NatTable.TiedTable` | ark-server/src/run.rs:469-483 | 256 forwards at one time make such a table |
| `NatTable.LateReply` | ark-server/src/run.rs:386-439 | a reply 70 seconds after the only forward is delivered |
| `NatTable.LateForward` | ark-server/src/run.rs:386-483 | it is dropped if anything was forwarded 60 seconds after |
| `NatTable.ForwardKeeps` | ark-server/src/run.rs:469-483 | a forward keeps the session invariant |
| `NatTable.ReplyKeeps` | ark-server/src/run.rs:430-439 | a reply keeps the session invariant |
| `NatTable.ExpiredStep` | ark-server/src/run.rs:481-481 | only a forward late enough makes an unused address expire |
| `EndpointHistory.DemotedStep` | ark-client/src/endpoints.rs:63-84 | how one attempt changes whether an endpoint is demoted |
| `EndpointHistory.EveryThird` | ark-client/src/endpoints.rs:73-84 | main: the third failure since the last success or demotion is every third failure since the last success |
| `Endpoints.FailureReflects` | ark-client/src/endpoints.rs:73-84 | the stored counter tells which failure demotes, and the entry then says what the history says |
| `Endpoints.EndpointRegistry.constructor` | ark-client/src/endpoints.rs:57-60 | an empty registry reflects the empty history |
| `Endpoints.EndpointRegistry.RecordSuccess` | ark-client/src/endpoints.rs:63-70 | a success ends demotion, clears the count and becomes preferred |
| `Endpoints.EndpointRegistry.RecordFailure` | ark-client/src/endpoints.rs:73-84 | main: demotes exactly at the third failure since the last success or demotion of the endpoint, over all runs |
| `Endpoints.PickedPermutation` | ark-client/src/endpoints.rs:106-133 | a leader and two complementary selections make up a permutation |
| `Endpoints.OrderedCandidates` | ark-client/src/endpoints.rs:102-134 | main: live ++ demoted is a permutation of all indices, split by demotion over the history, a live preferred one first, the rest in order |
| `Endpoints.LiveThenDemoted` | ark-client/src/endpoints.rs:216-216 | no demoted endpoint comes before a live one |
| `Endpoints.OrderKept` | ark-client/src/endpoints.rs:102-134 | apart from the leader, live and demoted endpoints each keep the order of the configuration |
| `Endpoints.ConnectWithFailover` | ark-client/src/endpoints.rs:212-244 | main: tries the live candidates and then the demoted ones, the leader first and the others in the order of the configuration, each at most once, stops at the first success, errs only after all failed, and records exactly the tried prefix |
| `Endpoints.PermutationSize` | ark-client/src/endpoints.rs:212-244 | a permutation has no index twice and none missing |

## Left out

- FsChaCha20Poly1305.NoncesNeverRepeat: counters are unbounded in the model; the source counts in u64, so it is stated for fewer than 2^64 packets.
- FsChaCha20.RefinesBip324: the chunk and block counters are unbounded in the model; the source counts in u64 and u32.
- Bip324Stream.Bip324Stream.PollWrite: buffers are shorter than 2^24 bytes, which the source asserts.
- ProbeTracker.ProbeTracker.IsTarpittedAt: says what the history decides only while the times of the calls do not decrease; contending calls, which read the clock before they take the lock, can arrive out of order, and then only the order-free clauses hold.
- ProbeTracker.ProbeTracker.RecordFailureAt: the same; `ProbeTracker.LateStamp` shows the difference.
- ProbeTracker.ProbeTracker.Gc: the same.
- Endpoints.ConnectWithFailover: one caller at a time; connections made concurrently share the registry in the source.
- `Bip324Stream::write_buf`, which is never appended to. The reader's buffers are represented by their filled part.
- Writes during the handshakes are appended to the channel at once; only reads are cut into pieces.
- The kinds of the I/O errors of `RlpxStream::poll_read`, which the source wraps alike; the model keeps them apart.
- `initiator_handshake` in `bip324/handshake.rs`, which is unfinished.
- The internals of ChaCha20, Poly1305, AES, Keccak, HKDF, HMAC, secp256k1 and ElligatorSwift.
- The ARK-frame version 2 negotiation, cover frames, status bytes and their deadlines.
- Random delays, Poisson timing and tarpit sleeping: only clocks and randomness.
- The connection pool, traffic shaping, URI and configuration parsing, metrics, DNS over HTTPS and the HTTP proxy: small arithmetic, strings or I/O.
- Forwarding to real Bitcoin or Ethereum nodes, TUN devices, probes, command lines and installers.
