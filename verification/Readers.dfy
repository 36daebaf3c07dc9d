/** The two readers of a BIP 324 connection, poll-driven and blocking. */
module Readers {
  import opened Bip324Stream
  import opened EncryptedStream
  import opened Receiving
  import opened Bip324Session

  /** Readers that started with the same ciphers and have taken the same bytes, in whatever pieces, have decrypted the
      same packets, and both or neither have met a packet that fails authentication. */
  lemma ReadersAgree(blocking: EncryptedStream, polled: Bip324Stream)
    requires blocking.Valid() || blocking.packets == blocking.Seen().packets
    requires polled.ReaderValid()
    requires blocking.p == polled.p && blocking.recvStart == polled.recvStart
    requires blocking.inner.taken == polled.tcpIn.received
    ensures blocking.packets == polled.packets
    ensures blocking.Seen().failed <==> polled.Rejected()
  {
    hide Run;
    ReaderState(polled);
  }
}
