/**
 The reference for both BIP 324 readers: a receiver that takes the connection's bytes one at a time.
 What it has decrypted depends on the bytes alone, not on how they were cut into reads.
 */
module Receiving {
  import opened Bytes
  import opened Bip324Primitives
  import opened FsChaCha20
  import opened FsChaCha20Poly1305
  import opened Packets

  datatype Phase = Length(got: bytes) | Body(aeadLen: nat, got: bytes)

  /** `packets` are the contents decrypted so far; after `failed` nothing changes any more. */
  datatype Receiver = Receiver(l: FsState, a: AeadState, phase: Phase, packets: seq<bytes>, failed: bool) {
    ghost predicate Valid() {
      match phase
      case Length(got) => |got| < LENGTH_FIELD_LEN && !failed
      case Body(aeadLen, got) =>
        && aeadLen >= HEADER_LEN + TAG_LEN
        && |got| <= aeadLen
        && (failed <==> |got| == aeadLen)
    }
  }

  /** A receiver between two packets. */
  function Between(c: Ciphers, packets: seq<bytes>): (r: Receiver)
    ensures r.Valid()
  {
    Receiver(c.l, c.a, Length([]), packets, false)
  }

  function LengthComplete(p: Primitives, r: Receiver, encLen: bytes): Receiver
    requires |encLen| == LENGTH_FIELD_LEN
  {
    var (l, aeadLen) := LengthReceived(p, r.l, encLen);
    r.(l := l, phase := Body(aeadLen, []))
  }

  function BodyComplete(p: Primitives, r: Receiver, ct: bytes): Receiver
    requires |ct| >= HEADER_LEN + TAG_LEN
  {
    match ContentsReceived(p, r.a, ct, [])
    case (_, BadTag) => r.(phase := Body(|ct|, ct), failed := true)
    case (a, Decoy) => r.(a := a, phase := Length([]))
    case (a, Contents(m)) => r.(a := a, phase := Length([]), packets := r.packets + [m])
  }

  function Feed(p: Primitives, r: Receiver, b: byte): (s: Receiver)
    requires r.Valid()
    ensures s.Valid()
  {
    if r.failed then r
    else
      match r.phase
      case Length(got) =>
        if |got| + 1 < LENGTH_FIELD_LEN then r.(phase := Length(got + [b]))
        else LengthComplete(p, r, got + [b])
      case Body(aeadLen, got) =>
        if |got| + 1 < aeadLen then r.(phase := Body(aeadLen, got + [b]))
        else BodyComplete(p, r, got + [b])
  }

  function Run(p: Primitives, r: Receiver, input: bytes): (s: Receiver)
    requires r.Valid()
    ensures s.Valid()
    decreases input
  {
    if input == [] then r else Run(p, Feed(p, r, input[0]), input[1..])
  }

  // ----- Fragmentation does not matter --------------------------------------

  lemma {:induction false} RunAppend(p: Primitives, r: Receiver, a: bytes, b: bytes)
    requires r.Valid()
    ensures Run(p, r, a + b) == Run(p, Run(p, r, a), b)
    decreases a
  {
    hide Feed;
    if a == [] {
      assert a + b == b;
    } else {
      assert (a + b)[1..] == a[1..] + b;
      RunAppend(p, Feed(p, r, a[0]), a[1..], b);
    }
  }

  /** A read that stays within the length field only extends it, and completes it at three bytes. */
  lemma {:induction false} RunLength(p: Primitives, r: Receiver, d: bytes)
    requires r.Valid() && r.phase.Length? && 0 < |d| && |r.phase.got| + |d| <= LENGTH_FIELD_LEN
    ensures Run(p, r, d) == if |r.phase.got| + |d| < LENGTH_FIELD_LEN then r.(phase := Length(r.phase.got + d))
                            else LengthComplete(p, r, r.phase.got + d)
    decreases d
  {
    hide LengthReceived, ContentsReceived;
    var got := r.phase.got;
    if |d| == 1 {
      assert d == [d[0]];
      assert Run(p, Feed(p, r, d[0]), d[1..]) == Feed(p, r, d[0]);
    } else {
      var s := r.(phase := Length(got + [d[0]]));
      assert Feed(p, r, d[0]) == s;
      assert (got + [d[0]]) + d[1..] == got + d;
      RunLength(p, s, d[1..]);
    }
  }

  lemma {:induction false} RunBody(p: Primitives, r: Receiver, d: bytes)
    requires r.Valid() && r.phase.Body? && !r.failed && 0 < |d| && |r.phase.got| + |d| <= r.phase.aeadLen
    ensures Run(p, r, d) == if |r.phase.got| + |d| < r.phase.aeadLen
                            then r.(phase := Body(r.phase.aeadLen, r.phase.got + d))
                            else BodyComplete(p, r, r.phase.got + d)
    decreases d
  {
    hide LengthReceived, ContentsReceived;
    var got := r.phase.got;
    if |d| == 1 {
      assert d == [d[0]];
      assert Run(p, Feed(p, r, d[0]), d[1..]) == Feed(p, r, d[0]);
    } else {
      var s := r.(phase := Body(r.phase.aeadLen, got + [d[0]]));
      assert Feed(p, r, d[0]) == s;
      assert (got + [d[0]]) + d[1..] == got + d;
      RunBody(p, s, d[1..]);
    }
  }

  lemma RunNothing(p: Primitives, r: Receiver)
    requires r.Valid()
    ensures Run(p, r, []) == r
  {
  }

  /** At most three more bytes behind a packet border. */
  lemma ArriveLength(p: Primitives, start: Receiver, before: bytes, idle: Receiver, d: bytes)
    requires start.Valid() && idle.Valid() && Run(p, start, before) == idle
    requires idle.phase == Length([]) && |d| <= LENGTH_FIELD_LEN
    ensures Run(p, start, before + d)
            == if |d| < LENGTH_FIELD_LEN then idle.(phase := Length(d)) else LengthComplete(p, idle, d)
  {
    hide Run, LengthComplete, LengthReceived;
    RunAppend(p, start, before, d);
    if d == [] {
      RunNothing(p, idle);
    } else {
      assert idle.phase.got + d == d;
      RunLength(p, idle, d);
    }
  }

  /** At most a whole body behind a length field. */
  lemma ArriveBody(p: Primitives, start: Receiver, before: bytes, open: Receiver, d: bytes)
    requires start.Valid() && open.Valid() && !open.failed && Run(p, start, before) == open
    requires open.phase.Body? && open.phase.got == [] && |d| <= open.phase.aeadLen
    ensures Run(p, start, before + d)
            == if |d| < open.phase.aeadLen then open.(phase := Body(open.phase.aeadLen, d))
               else BodyComplete(p, open, d)
  {
    hide Run, BodyComplete, ContentsReceived;
    RunAppend(p, start, before, d);
    if d == [] {
      RunNothing(p, open);
    } else {
      assert open.phase.got + d == d;
      RunBody(p, open, d);
    }
  }

  // ----- Safety over whole runs ---------------------------------------------

  /** Later bytes never take back a packet, and nothing appears after an authentication failure. */
  lemma {:induction false} RunGrows(p: Primitives, r: Receiver, input: bytes)
    requires r.Valid()
    ensures r.packets <= Run(p, r, input).packets
    ensures r.failed ==> Run(p, r, input) == r
    decreases input
  {
    if input == [] {
    } else {
      RunGrows(p, Feed(p, r, input[0]), input[1..]);
    }
  }

  // ----- What the sender's bytes decrypt to ---------------------------------

  datatype Packet = Packet(contents: bytes, ignore: bool)

  ghost predicate Sendable(ps: seq<Packet>) {
    forall i :: 0 <= i < |ps| ==> |ps[i].contents| < CONTENTS_LIMIT
  }

  /** The wire bytes of consecutive packets without associated data. */
  function EncodeAll(p: Primitives, c: Ciphers, ps: seq<Packet>): (r: (Ciphers, bytes))
    requires Sendable(ps)
    decreases ps
  {
    if ps == [] then (c, [])
    else
      var (d, packet) := Encoded(p, c, ps[0].contents, [], ps[0].ignore);
      var (e, rest) := EncodeAll(p, d, ps[1..]);
      (e, packet + rest)
  }

  lemma {:induction false} EncodeSnoc(p: Primitives, c: Ciphers, ps: seq<Packet>, m: Packet)
    requires Sendable(ps) && |m.contents| < CONTENTS_LIMIT
    ensures var (d, wire) := EncodeAll(p, c, ps);
            var (e, packet) := Encoded(p, d, m.contents, [], m.ignore);
            Sendable(ps + [m]) && EncodeAll(p, c, ps + [m]) == (e, wire + packet)
    decreases ps
  {
    hide Encoded;
    if ps == [] {
      assert ps + [m] == [m];
      var (e, packet) := Encoded(p, c, m.contents, [], m.ignore);
      assert EncodeAll(p, e, [m][1..]) == (e, []);
      assert packet + [] == packet == [] + packet;
    } else {
      assert (ps + [m])[1..] == ps[1..] + [m];
      var (d, first) := Encoded(p, c, ps[0].contents, [], ps[0].ignore);
      EncodeSnoc(p, d, ps[1..], m);
      var (e, rest) := EncodeAll(p, d, ps[1..]);
      var (f, packet) := Encoded(p, e, m.contents, [], m.ignore);
      assert first + (rest + packet) == (first + rest) + packet;
    }
  }

  /** The same packets as BIP 324 writes them, from packet `n` of the direction on. */
  function WireFrom(p: Primitives, keyL: bytes, keyP: bytes, n: nat, ps: seq<Packet>): bytes
    decreases ps
  {
    if ps == [] then []
    else PacketBytes(p, keyL, keyP, n, ps[0].contents, [], ps[0].ignore) + WireFrom(p, keyL, keyP, n + 1, ps[1..])
  }

  /** The stateful encoder writes exactly that wire, over every sequence of packets and across all rekeys. */
  lemma {:induction false} WireIsBip324(p: Primitives, keyL: bytes, keyP: bytes, n: nat, ps: seq<Packet>)
    requires Sendable(ps)
    ensures EncodeAll(p, CiphersAt(p, keyL, keyP, n), ps)
         == (CiphersAt(p, keyL, keyP, n + |ps|), WireFrom(p, keyL, keyP, n, ps))
    decreases ps
  {
    hide Encoded, CiphersAt, PacketBytes;
    if ps == [] {
    } else {
      EncodesAsBip324(p, keyL, keyP, n, ps[0].contents, [], ps[0].ignore);
      WireIsBip324(p, keyL, keyP, n + 1, ps[1..]);
      assert n + 1 + |ps[1..]| == n + |ps|;
    }
  }

  /** The contents of all packets that are not decoys. */
  function Visible(ps: seq<Packet>): seq<bytes> {
    if ps == [] then [] else (if ps[0].ignore then [] else [ps[0].contents]) + Visible(ps[1..])
  }

  lemma RunPacket(p: Primitives, c: Ciphers, packets: seq<bytes>, m: Packet)
    requires |m.contents| < CONTENTS_LIMIT
    ensures var (d, packet) := Encoded(p, c, m.contents, [], m.ignore);
            Run(p, Between(c, packets), packet) == Between(d, packets + if m.ignore then [] else [m.contents])
  {
    hide Encoded, LengthReceived, ContentsReceived, Run;
    var packet := Encoded(p, c, m.contents, [], m.ignore).1;
    PacketRoundTrip(p, c, m.contents, [], m.ignore);
    var encLen, ct := packet[..LENGTH_FIELD_LEN], packet[LENGTH_FIELD_LEN..];
    var idle := Between(c, packets);
    RunNothing(p, idle);
    ArriveLength(p, idle, [], idle, encLen);
    assert [] + encLen == encLen && encLen + ct == packet;
    ArriveBody(p, idle, encLen, LengthComplete(p, idle, encLen), ct);
  }

  lemma VisibleStep(packets: seq<bytes>, ps: seq<Packet>)
    requires ps != []
    ensures packets + Visible(ps)
            == (packets + if ps[0].ignore then [] else [ps[0].contents]) + Visible(ps[1..])
  {
  }

  lemma {:induction false} RunAll(p: Primitives, c: Ciphers, packets: seq<bytes>, ps: seq<Packet>)
    requires Sendable(ps)
    ensures var (d, wire) := EncodeAll(p, c, ps);
            Run(p, Between(c, packets), wire) == Between(d, packets + Visible(ps))
    decreases ps
  {
    hide Encoded, Run, Between;
    if ps == [] {
      assert packets + Visible(ps) == packets;
      RunNothing(p, Between(c, packets));
    } else {
      var (d, packet) := Encoded(p, c, ps[0].contents, [], ps[0].ignore);
      var seen := packets + if ps[0].ignore then [] else [ps[0].contents];
      var (e, rest) := EncodeAll(p, d, ps[1..]);
      assert EncodeAll(p, c, ps) == (e, packet + rest);
      VisibleStep(packets, ps);
      RunPacket(p, c, packets, ps[0]);
      RunAll(p, d, seen, ps[1..]);
      RunAppend(p, Between(c, packets), packet, rest);
    }
  }

  /** Whatever part of the sender's bytes has arrived, the receiver has not failed and has decrypted a prefix
      of what was sent; once all bytes are in, it has decrypted everything and its ciphers equal the sender's. */
  lemma ReceivedPrefix(p: Primitives, c: Ciphers, ps: seq<Packet>, arrived: bytes)
    requires Sendable(ps) && arrived <= EncodeAll(p, c, ps).1
    ensures var r := Run(p, Between(c, []), arrived);
            && !r.failed
            && r.packets <= Visible(ps)
            && (arrived == EncodeAll(p, c, ps).1 ==> r == Between(EncodeAll(p, c, ps).0, Visible(ps)))
  {
    hide Run, EncodeAll;
    var wire := EncodeAll(p, c, ps).1;
    var missing := wire[|arrived|..];
    assert arrived + missing == wire;
    RunAll(p, c, [], ps);
    assert [] + Visible(ps) == Visible(ps);
    RunAppend(p, Between(c, []), arrived, missing);
    RunGrows(p, Run(p, Between(c, []), arrived), missing);
  }
}
