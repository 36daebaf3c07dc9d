/** The plaintext bodies of the RLPx auth and ack messages: an RLP list (EIP-8) or the older flat layout. */
module HandshakeBodies {
  import opened Wrappers
  import opened Bytes
  import opened Rlp

  const AUTH_BODY_SIZE: nat := 162  // sig(65) + pub(64) + nonce(32) + vsn(1)
  const ACK_BODY_SIZE: nat := 97    // eph-pub(64) + nonce(32) + vsn(1)

  /** `Panicked`: the task ends in a panic, as `RlpItem` does for a length that overflows. */
  datatype BodyError = NotAList | MissingField | FieldTooShort | Panicked

  datatype Auth = Auth(sig: bytes, recId: byte, pub: bytes, nonce: bytes) {
    ghost predicate Valid() { |sig| == 64 && |pub| == 64 && |nonce| == 32 }
  }

  datatype Ack = Ack(ephPub: bytes, nonce: bytes) {
    ghost predicate Valid() { |ephPub| == 64 && |nonce| == 32 }
  }

  /** The list item at `pos`, cut to its first `n` bytes, and the position behind it. */
  function FieldAt(payload: bytes, pos: nat, n: nat): (r: Result<(bytes, nat), BodyError>)
    requires pos <= |payload|
    ensures r.Success? ==> |r.value.0| == n && pos < r.value.1 <= |payload|
  {
    var item := RlpItem(payload[pos..]);
    if item.Panics? then Failure(Panicked)
    else if item.Malformed? then Failure(MissingField)
    else if |item.value.0| < n then Failure(FieldTooShort)
    else Success((item.value.0[..n], pos + item.value.1))
  }

  /** The flat layout is told from a list by length and first byte. */
  predicate IsFlatAuth(body: bytes) {
    |body| >= AUTH_BODY_SIZE && body[0] != 0xC0 && body[0] < 0xF7
  }

  predicate IsFlatAck(body: bytes) {
    |body| >= ACK_BODY_SIZE && body[0] < 0xC0
  }

  function AuthFromList(body: bytes): (r: Result<Auth, BodyError>)
    ensures r.Success? ==> r.value.Valid()
  {
    var list := RlpItem(body);
    if list.Panics? then Failure(Panicked)
    else if list.Malformed? then Failure(NotAList)
    else
      var (sig, p1) :- FieldAt(list.value.0, 0, 65);
      var (pub, p2) :- FieldAt(list.value.0, p1, 64);
      var (nonce, _) :- FieldAt(list.value.0, p2, 32);
      Success(Auth(sig[..64], sig[64], pub, nonce))
  }

  function DecodeAuthBody(body: bytes): (r: Result<Auth, BodyError>)
    ensures r.Success? ==> r.value.Valid()
  {
    if IsFlatAuth(body) then Success(Auth(body[..64], body[64], body[65..129], body[129..161])) else AuthFromList(body)
  }

  function AckFromList(body: bytes): (r: Result<Ack, BodyError>)
    ensures r.Success? ==> r.value.Valid()
  {
    var list := RlpItem(body);
    if list.Panics? then Failure(Panicked)
    else if list.Malformed? then Failure(NotAList)
    else
      var (ephPub, p1) :- FieldAt(list.value.0, 0, 64);
      var (nonce, _) :- FieldAt(list.value.0, p1, 32);
      Success(Ack(ephPub, nonce))
  }

  function DecodeAckBody(body: bytes): (r: Result<Ack, BodyError>)
    ensures r.Success? ==> r.value.Valid()
  {
    if IsFlatAck(body) then Success(Ack(body[..64], body[64..96])) else AckFromList(body)
  }

  // ----- When decoding panics -----------------------------------------------

  /** One of the items from `pos` on whose minimal lengths are `ns` overflows, and those before it are fine. */
  predicate FieldsOverflow(payload: bytes, pos: nat, ns: seq<nat>)
    requires pos <= |payload|
    decreases ns
  {
    ns != []
    && (|| SumOverflows(payload[pos..])
        || (&& RlpItem(payload[pos..]).Item? && |RlpItem(payload[pos..]).value.0| >= ns[0]
            && FieldsOverflow(payload, pos + RlpItem(payload[pos..]).value.1, ns[1..])))
  }

  /** The body as a list, or one of its fields that the decoder reaches, announces an overflowing length. */
  predicate ListOverflows(body: bytes, ns: seq<nat>) {
    SumOverflows(body) || (RlpItem(body).Item? && FieldsOverflow(RlpItem(body).value.0, 0, ns))
  }

  lemma FieldPanicsIff(payload: bytes, pos: nat, n: nat, ns: seq<nat>)
    requires pos <= |payload|
    ensures var f := FieldAt(payload, pos, n);
            && (f == Failure(Panicked) <==> SumOverflows(payload[pos..]))
            && (FieldsOverflow(payload, pos, [n] + ns) <==>
                  f == Failure(Panicked) || (f.Success? && FieldsOverflow(payload, f.value.1, ns)))
  {
    hide RlpItem, SumOverflows;
    PanicsIff(payload[pos..]);
    assert ([n] + ns)[1..] == ns;
  }

  lemma LastFieldPanicsIff(payload: bytes, pos: nat, n: nat)
    requires pos <= |payload|
    ensures FieldAt(payload, pos, n) == Failure(Panicked) <==> FieldsOverflow(payload, pos, [n])
  {
    hide RlpItem, SumOverflows;
    FieldPanicsIff(payload, pos, n, []);
    assert [n] + [] == [n];
  }

  /** Decoding an auth panics the task exactly when it is no flat body and the list or one of the three fields that
      are read from it overflows. */
  lemma AuthPanicsIff(body: bytes)
    ensures DecodeAuthBody(body) == Failure(Panicked) <==> !IsFlatAuth(body) && ListOverflows(body, [65, 64, 32])
  {
    hide RlpItem, SumOverflows, FieldAt, FieldsOverflow;
    PanicsIff(body);
    if RlpItem(body).Item? {
      var payload := RlpItem(body).value.0;
      assert [65] + [64, 32] == [65, 64, 32] && [64] + [32] == [64, 32] && [32] + [] == [32];
      FieldPanicsIff(payload, 0, 65, [64, 32]);
      var sig := FieldAt(payload, 0, 65);
      if sig.Success? {
        FieldPanicsIff(payload, sig.value.1, 64, [32]);
        var pub := FieldAt(payload, sig.value.1, 64);
        if pub.Success? {
          LastFieldPanicsIff(payload, pub.value.1, 32);
        }
      }
    }
  }

  /** The same for an ack and its two fields. */
  lemma AckPanicsIff(body: bytes)
    ensures DecodeAckBody(body) == Failure(Panicked) <==> !IsFlatAck(body) && ListOverflows(body, [64, 32])
  {
    hide RlpItem, SumOverflows, FieldAt, FieldsOverflow;
    PanicsIff(body);
    if RlpItem(body).Item? {
      var payload := RlpItem(body).value.0;
      assert [64] + [32] == [64, 32];
      FieldPanicsIff(payload, 0, 64, [32]);
      var ephPub := FieldAt(payload, 0, 64);
      if ephPub.Success? {
        LastFieldPanicsIff(payload, ephPub.value.1, 32);
      }
    }
  }

  lemma PanicItemPanicsBodies()
    ensures DecodeAuthBody(PANIC_ITEM) == Failure(Panicked) && DecodeAckBody(PANIC_ITEM) == Failure(Panicked)
  {
    hide RlpItem, SumOverflows, FieldsOverflow;
    PanicItemPanics();
    AuthPanicsIff(PANIC_ITEM);
    AckPanicsIff(PANIC_ITEM);
  }

  // ----- EIP-8 bodies -------------------------------------------------------

  /** The list the initiator builds, with any items behind the three that matter. */
  function AuthBody(a: Auth, more: seq<bytes>): bytes {
    RlpList([RlpBytes(a.sig + [a.recId]), RlpBytes(a.pub), RlpBytes(a.nonce)] + more)
  }

  function AckBody(a: Ack, more: seq<bytes>): bytes {
    RlpList([RlpBytes(a.ephPub), RlpBytes(a.nonce)] + more)
  }

  lemma ListLead(items: seq<bytes>)
    requires |Concat(items)| > SHORT_LIMIT
    ensures RlpList(items) != [] && RlpList(items)[0] > 0xF7
  {
  }

  lemma FieldInverse(before: bytes, d: bytes, behind: bytes)
    requires FitsUsize(|RlpBytes(d)|)
    ensures FieldAt(before + RlpBytes(d) + behind, |before|, |d|) == Success((d, |before| + |RlpBytes(d)|))
  {
    hide RlpItem, RlpBytes, FitsUsize;
    BytesInverse(d, behind);
    assert (before + RlpBytes(d) + behind)[|before|..] == RlpBytes(d) + behind;
    assert d[..|d|] == d;
  }

  /** A field with more bytes than asked for is cut, and one with fewer is refused. */
  lemma FieldCut(before: bytes, d: bytes, behind: bytes, n: nat)
    requires FitsUsize(|RlpBytes(d)|)
    ensures FieldAt(before + RlpBytes(d) + behind, |before|, n)
         == if |d| < n then Failure(FieldTooShort) else Success((d[..n], |before| + |RlpBytes(d)|))
  {
    hide RlpItem, RlpBytes, FitsUsize;
    BytesInverse(d, behind);
    assert (before + RlpBytes(d) + behind)[|before|..] == RlpBytes(d) + behind;
  }

  lemma ConcatFront(item: bytes, items: seq<bytes>)
    ensures Concat([item] + items) == item + Concat(items)
  {
  }

  lemma SmallFits()
    ensures forall m: nat :: m <= 0xFFFF_FFFF ==> FitsUsize(m)
  {
  }

  lemma AuthPayload(sig: bytes, pub: bytes, nonce: bytes, more: seq<bytes>)
    ensures Concat([RlpBytes(sig), RlpBytes(pub), RlpBytes(nonce)] + more)
            == RlpBytes(sig) + (RlpBytes(pub) + (RlpBytes(nonce) + Concat(more)))
  {
    hide RlpBytes;
    ConcatFront(RlpBytes(nonce), more);
    ConcatFront(RlpBytes(pub), [RlpBytes(nonce)] + more);
    ConcatFront(RlpBytes(sig), [RlpBytes(pub)] + ([RlpBytes(nonce)] + more));
    assert [RlpBytes(sig), RlpBytes(pub), RlpBytes(nonce)] + more
        == [RlpBytes(sig)] + ([RlpBytes(pub)] + ([RlpBytes(nonce)] + more));
  }

  /** An EIP-8 auth body gives back its fields, whatever items and bytes come behind them, and is never taken for
      the flat layout. */
  lemma AuthInverse(a: Auth, more: seq<bytes>, trailing: bytes)
    requires a.Valid()
    requires FitsUsize(|AuthBody(a, more)|)
    ensures DecodeAuthBody(AuthBody(a, more) + trailing) == Success(a)
  {
    hide RlpItem, RlpBytes, RlpList, FieldAt, FitsUsize;
    var sig, rest := a.sig + [a.recId], Concat(more);
    var items := [RlpBytes(sig), RlpBytes(a.pub), RlpBytes(a.nonce)] + more;
    AuthPayload(sig, a.pub, a.nonce, more);
    var payload := Concat(items);
    SmallFits();
    EncodingLengths(sig, []);
    EncodingLengths(a.pub, []);
    EncodingLengths(a.nonce, []);
    ListLead(items);
    ListInverse(items, trailing);
    FieldInverse([], sig, RlpBytes(a.pub) + (RlpBytes(a.nonce) + rest));
    FieldInverse(RlpBytes(sig), a.pub, RlpBytes(a.nonce) + rest);
    FieldInverse(RlpBytes(sig) + RlpBytes(a.pub), a.nonce, rest);
    assert payload == [] + RlpBytes(sig) + (RlpBytes(a.pub) + (RlpBytes(a.nonce) + rest));
    assert payload == RlpBytes(sig) + RlpBytes(a.pub) + (RlpBytes(a.nonce) + rest);
    assert payload == (RlpBytes(sig) + RlpBytes(a.pub)) + RlpBytes(a.nonce) + rest;
    assert sig[..64] == a.sig && sig[64] == a.recId;
  }

  lemma One(item: bytes)
    ensures Concat([item]) == item
  {
    assert [item][1..] == [];
  }

  lemma Four()
    ensures RlpU64(4) == [0x04]
  {
    OneByte(4);
  }

  /** The auth that the initiator sends, byte for byte. */
  lemma AuthBytes(a: Auth)
    requires a.Valid()
    ensures AuthBody(a, [RlpU64(4)])
         == [0xF8, 0xA7] + [0xB8, 0x41] + a.sig + [a.recId] + [0xB8, 0x40] + a.pub + [0xA0] + a.nonce + [0x04]
  {
    hide RlpBytes, RlpList, RlpU64;
    var sig := a.sig + [a.recId];
    var items := [RlpBytes(sig), RlpBytes(a.pub), RlpBytes(a.nonce)] + [RlpU64(4)];
    AuthPayload(sig, a.pub, a.nonce, [RlpU64(4)]);
    LongString(sig);
    LongString(a.pub);
    ShortString(a.nonce);
    Four();
    One([0x04]);
    LongList(items);
    assert Concat(items) == [0xB8, 0x41] + sig + ([0xB8, 0x40] + a.pub + ([0xA0] + a.nonce + [0x04]));
  }

  lemma AckPayload(ephPub: bytes, nonce: bytes, more: seq<bytes>)
    ensures Concat([RlpBytes(ephPub), RlpBytes(nonce)] + more) == RlpBytes(ephPub) + (RlpBytes(nonce) + Concat(more))
  {
  }

  /** The ack that the responder sends, byte for byte. */
  lemma AckBytes(a: Ack)
    requires a.Valid()
    ensures AckBody(a, [RlpU64(4)]) == [0xF8, 0x64] + [0xB8, 0x40] + a.ephPub + [0xA0] + a.nonce + [0x04]
  {
    hide RlpBytes, RlpList, RlpU64;
    var items := [RlpBytes(a.ephPub), RlpBytes(a.nonce)] + [RlpU64(4)];
    AckPayload(a.ephPub, a.nonce, [RlpU64(4)]);
    LongString(a.ephPub);
    ShortString(a.nonce);
    Four();
    One([0x04]);
    LongList(items);
    assert Concat(items) == [0xB8, 0x40] + a.ephPub + ([0xA0] + a.nonce + [0x04]);
  }

  lemma AckInverse(a: Ack, more: seq<bytes>, trailing: bytes)
    requires a.Valid()
    requires FitsUsize(|AckBody(a, more)|)
    ensures DecodeAckBody(AckBody(a, more) + trailing) == Success(a)
  {
    hide RlpItem, RlpBytes, RlpList, FieldAt, FitsUsize;
    var rest, items := Concat(more), [RlpBytes(a.ephPub), RlpBytes(a.nonce)] + more;
    var payload := Concat(items);
    AckPayload(a.ephPub, a.nonce, more);
    SmallFits();
    EncodingLengths(a.ephPub, []);
    EncodingLengths(a.nonce, []);
    ListLead(items);
    ListInverse(items, trailing);
    FieldInverse([], a.ephPub, RlpBytes(a.nonce) + rest);
    FieldInverse(RlpBytes(a.ephPub), a.nonce, rest);
    assert payload == [] + RlpBytes(a.ephPub) + (RlpBytes(a.nonce) + rest);
    assert payload == RlpBytes(a.ephPub) + RlpBytes(a.nonce) + rest;
  }

  // ----- Flat bodies --------------------------------------------------------

  /** Content of more than one byte has a header, and content of more than 55 bytes a header of two bytes or more. */
  lemma HeaderLengths(data: bytes)
    requires RlpItem(data).Item?
    ensures var (content, total) := RlpItem(data).value;
            && (|content| > 1 ==> total >= |content| + 1)
            && (|content| > SHORT_LIMIT ==> total >= |content| + 2)
  {
    hide FromBe;
  }

  lemma FieldLength(payload: bytes, pos: nat, n: nat)
    requires pos <= |payload| && n > 1 && FieldAt(payload, pos, n).Success?
    ensures FieldAt(payload, pos, n).value.1 >= pos + n + if n > SHORT_LIMIT then 2 else 1
  {
    hide RlpItem;
    HeaderLengths(payload[pos..]);
  }

  lemma ListPayload(body: bytes)
    requires |body| > SHORT_LIMIT + 2 && RlpItem(body).Item?
    ensures |RlpItem(body).value.0| <= |body| - 2
  {
    hide RlpItem;
    HeaderLengths(body);
  }

  /** Three fields of the lengths of an auth take 166 bytes or more. */
  lemma AuthTooShort(body: bytes)
    requires |body| == AUTH_BODY_SIZE && (body[0] == 0xC0 || body[0] >= 0xF7)
    ensures DecodeAuthBody(body).Failure?
  {
    hide RlpItem, FieldAt;
    if RlpItem(body).Item? {
      var payload := RlpItem(body).value.0;
      ListPayload(body);
      var sig := FieldAt(payload, 0, 65);
      if sig.Success? {
        FieldLength(payload, 0, 65);
        var pub := FieldAt(payload, sig.value.1, 64);
        if pub.Success? {
          FieldLength(payload, sig.value.1, 64);
          if FieldAt(payload, pub.value.1, 32).Success? {
            FieldLength(payload, pub.value.1, 32);
          }
        }
      }
    }
  }

  lemma AckTooShort(body: bytes)
    requires |body| == ACK_BODY_SIZE && body[0] >= 0xC0
    ensures DecodeAckBody(body).Failure?
  {
    hide RlpItem, FieldAt;
    if RlpItem(body).Item? {
      var payload := RlpItem(body).value.0;
      ListPayload(body);
      var ephPub := FieldAt(payload, 0, 64);
      if ephPub.Success? {
        FieldLength(payload, 0, 64);
        if FieldAt(payload, ephPub.value.1, 32).Success? {
          FieldLength(payload, ephPub.value.1, 32);
        }
      }
    }
  }

  function FlatAuthBody(a: Auth, vsn: byte): bytes {
    a.sig + [a.recId] + a.pub + a.nonce + [vsn]
  }

  function FlatAckBody(a: Ack, vsn: byte): bytes {
    a.ephPub + a.nonce + [vsn]
  }

  /** With bytes behind it, which no old message has, a flat auth body decodes by offset unless its signature starts
      with 0xc0 or from 0xf7 on. Then it is read as a list, and refused if it starts with 0xc0 or 0xf7. */
  lemma FlatAuth(a: Auth, vsn: byte, trailing: bytes)
    requires a.Valid()
    ensures var body := FlatAuthBody(a, vsn) + trailing;
            && DecodeAuthBody(body) == (if a.sig[0] != 0xC0 && a.sig[0] < 0xF7 then Success(a) else AuthFromList(body))
            && (a.sig[0] == 0xC0 || a.sig[0] == 0xF7 ==> DecodeAuthBody(body).Failure?)
  {
    hide LongItem;
    var body := FlatAuthBody(a, vsn) + trailing;
    assert body[..64] == a.sig && body[65..129] == a.pub && body[129..161] == a.nonce;
    if a.sig[0] == 0xC0 || a.sig[0] == 0xF7 {
      assert RlpItem(body).Item? ==> |RlpItem(body).value.0| <= SHORT_LIMIT;
    }
  }

  /** The same for an ack, whose key must start below 0xc0; one that starts from 0xc0 to 0xf7 is refused. */
  lemma FlatAck(a: Ack, vsn: byte, trailing: bytes)
    requires a.Valid()
    ensures var body := FlatAckBody(a, vsn) + trailing;
            && DecodeAckBody(body) == (if a.ephPub[0] < 0xC0 then Success(a) else AckFromList(body))
            && (0xC0 <= a.ephPub[0] <= 0xF7 ==> DecodeAckBody(body).Failure?)
  {
    hide LongItem;
    var body := FlatAckBody(a, vsn) + trailing;
    assert body[..64] == a.ephPub && body[64..96] == a.nonce;
    if 0xC0 <= a.ephPub[0] <= 0xF7 {
      assert RlpItem(body).Item? ==> |RlpItem(body).value.0| <= SHORT_LIMIT;
    }
  }

  /** The body of an old auth message, whose 275 bytes leave 162, gives back its fields exactly when its signature
      starts neither with 0xc0 nor with 0xf7 or above; else it is refused. */
  lemma FlatAuthIff(a: Auth, vsn: byte)
    requires a.Valid()
    ensures DecodeAuthBody(FlatAuthBody(a, vsn)) == Success(a) <==> a.sig[0] != 0xC0 && a.sig[0] < 0xF7
    ensures DecodeAuthBody(FlatAuthBody(a, vsn)).Failure? <==> a.sig[0] == 0xC0 || a.sig[0] >= 0xF7
  {
    hide RlpItem, FieldAt, DecodeAuthBody;
    if a.sig[0] == 0xC0 || a.sig[0] >= 0xF7 {
      AuthTooShort(FlatAuthBody(a, vsn));
    } else {
      FlatAuth(a, vsn, []);
      assert FlatAuthBody(a, vsn) + [] == FlatAuthBody(a, vsn);
    }
  }

  /** The body of an old ack message, whose 210 bytes leave 97, gives back its fields exactly when its key starts
      below 0xc0; else it is refused. */
  lemma FlatAckIff(a: Ack, vsn: byte)
    requires a.Valid()
    ensures DecodeAckBody(FlatAckBody(a, vsn)) == Success(a) <==> a.ephPub[0] < 0xC0
    ensures DecodeAckBody(FlatAckBody(a, vsn)).Failure? <==> a.ephPub[0] >= 0xC0
  {
    hide RlpItem, FieldAt, DecodeAckBody;
    if a.ephPub[0] >= 0xC0 {
      AckTooShort(FlatAckBody(a, vsn));
    } else {
      FlatAck(a, vsn, []);
      assert FlatAckBody(a, vsn) + [] == FlatAckBody(a, vsn);
    }
  }
}
