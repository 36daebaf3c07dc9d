/** The RLPx Hello message and the detection of the ARK1 capability in it. */
module Hello {
  import opened Wrappers
  import opened Bytes
  import opened Ark1
  import opened Rlp

  // ----- The detector -------------------------------------------------------

  /** Walks the capability list. */
  function CapsHaveArk1(caps: bytes): Parsed<bool>
    decreases |caps|
  {
    if caps == [] then Item(false)
    else
      var (inner, total) :- RlpItem(caps);
      var (name, _) :- RlpItem(inner);
      if name == ARK1_MAGIC then Item(true) else CapsHaveArk1(caps[total..])
  }

  function HelloCaps(data: bytes): Parsed<bool>
    requires data != []
  {
    var (outer, _) :- RlpItem(data[1..]);
    var (_, m) :- RlpItem(outer);
    var (_, n) :- RlpItem(outer[m..]);
    var (caps, _) :- RlpItem(outer[m + n..]);
    CapsHaveArk1(caps)
  }

  /** `Item(false)` for another message. */
  function HelloInner(data: bytes): Parsed<bool> {
    if data == [] || data[0] != 0 then Item(false) else HelloCaps(data)
  }

  lemma CapsNone()
    ensures CapsHaveArk1([]) == Item(false)
  {
  }

  lemma CapsStep(caps: bytes)
    requires caps != []
    ensures CapsHaveArk1(caps)
         == var item := RlpItem(caps);
            if !item.Item? then item.PropagateFailure()
            else
              var name := RlpItem(item.value.0);
              if !name.Item? then name.PropagateFailure()
              else if name.value.0 == ARK1_MAGIC then Item(true)
              else CapsHaveArk1(caps[item.value.1..])
  {
  }

  /** The capability loop; it ends because every item takes at least one byte. */
  method ScanCaps(caps: bytes) returns (r: Parsed<bool>)
    ensures r == CapsHaveArk1(caps)
  {
    hide RlpItem, CapsHaveArk1;
    var pos: nat := 0;
    assert caps[0..] == caps;
    while pos < |caps|
      invariant pos <= |caps|
      invariant CapsHaveArk1(caps[pos..]) == CapsHaveArk1(caps)
      decreases |caps| - pos
    {
      CapsStep(caps[pos..]);
      var item := ReadItem(caps[pos..]);
      if !item.Item? {
        return item.PropagateFailure();
      }
      var name := ReadItem(item.value.0);
      if !name.Item? {
        return name.PropagateFailure();
      }
      if name.value.0 == ARK1_MAGIC {
        return Item(true);
      }
      assert caps[pos..][item.value.1..] == caps[pos + item.value.1..];
      pos := pos + item.value.1;
    }
    assert caps[pos..] == [];
    CapsNone();
    return Item(false);
  }

  method ParseHelloInner(data: bytes) returns (r: Parsed<bool>)
    ensures r == HelloInner(data)
  {
    hide RlpItem, CapsHaveArk1;
    if data == [] || data[0] != 0 {
      return Item(false);
    }
    var outer := ReadItem(data[1..]);
    if !outer.Item? {
      return outer.PropagateFailure();
    }
    var pos: nat := 0;
    for i := 0 to 2
      invariant pos <= |outer.value.0|
      invariant i == 0 ==> pos == 0
      invariant i == 1 ==> RlpItem(outer.value.0).Item? && pos == RlpItem(outer.value.0).value.1
      invariant i == 2 ==>
                  && RlpItem(outer.value.0).Item?
                  && var m := RlpItem(outer.value.0).value.1;
                     RlpItem(outer.value.0[m..]).Item? && pos == m + RlpItem(outer.value.0[m..]).value.1
    {
      var skipped := ReadItem(outer.value.0[pos..]);
      assert outer.value.0[0..] == outer.value.0;
      if !skipped.Item? {
        return skipped.PropagateFailure();
      }
      pos := pos + skipped.value.1;
    }
    var caps := ReadItem(outer.value.0[pos..]);
    if !caps.Item? {
      return caps.PropagateFailure();
    }
    r := ScanCaps(caps.value.0);
  }

  /** `None` if the task panics; a malformed Hello counts as one without ARK1. */
  method ParseHelloHasArk1(data: bytes) returns (r: Option<bool>)
    ensures r.None? <==> HelloInner(data).Panics?
    ensures r == Some(true) <==> HelloInner(data) == Item(true)
  {
    var inner := ParseHelloInner(data);
    match inner
    case Panics => return None;
    case Malformed => return Some(false);
    case Item(hasArk1) => return Some(hasArk1);
  }

  predicate CapsPanic(caps: bytes)
    decreases |caps|
  {
    || SumOverflows(caps)
    || (&& RlpItem(caps).Item?
        && var (inner, total) := RlpItem(caps).value;
        || SumOverflows(inner)
        || (RlpItem(inner).Item? && RlpItem(inner).value.0 != ARK1_MAGIC && CapsPanic(caps[total..])))
  }

  predicate FieldsPanic(fields: bytes) {
    || SumOverflows(fields)
    || (&& RlpItem(fields).Item?
        && var m := RlpItem(fields).value.1;
        || SumOverflows(fields[m..])
        || (&& RlpItem(fields[m..]).Item?
            && var n := RlpItem(fields[m..]).value.1;
            || SumOverflows(fields[m + n..])
            || (RlpItem(fields[m + n..]).Item? && CapsPanic(RlpItem(fields[m + n..]).value.0))))
  }

  lemma NothingOverflows()
    ensures !SumOverflows([]) && RlpItem([]) == Malformed
  {
  }

  lemma {:induction false} CapsPanicAt(caps: bytes)
    ensures CapsHaveArk1(caps).Panics? <==> CapsPanic(caps)
    decreases |caps|
  {
    hide RlpItem, SumOverflows;
    PanicsIff(caps);
    if caps == [] {
      NothingOverflows();
    } else if RlpItem(caps).Item? {
      var (inner, total) := RlpItem(caps).value;
      PanicsIff(inner);
      if RlpItem(inner).Item? {
        CapsPanicAt(caps[total..]);
      }
    }
  }

  /** Detection panics exactly when one of the items it decodes announces an overflowing length: the outer list, one
      of its first three items, or a capability or its name before the first one called ARK1. */
  lemma PanicsAt(data: bytes)
    requires data != [] && data[0] == 0
    ensures HelloInner(data).Panics? <==>
              var outer := RlpItem(data[1..]);
              || SumOverflows(data[1..])
              || (outer.Item? && FieldsPanic(outer.value.0))
  {
    hide RlpItem, CapsHaveArk1, SumOverflows;
    PanicsIff(data[1..]);
    var outer := RlpItem(data[1..]);
    if outer.Item? {
      var fields := outer.value.0;
      PanicsIff(fields);
      if RlpItem(fields).Item? {
        var m := RlpItem(fields).value.1;
        PanicsIff(fields[m..]);
        if RlpItem(fields[m..]).Item? {
          var n := RlpItem(fields[m..]).value.1;
          PanicsIff(fields[m + n..]);
          if RlpItem(fields[m + n..]).Item? {
            CapsPanicAt(RlpItem(fields[m + n..]).value.0);
          }
        }
      }
    }
  }

  /** Ten bytes that a peer can send as its Hello. */
  const PANIC_HELLO: bytes := [0] + PANIC_ITEM

  lemma PanicHelloPanics()
    ensures HelloInner(PANIC_HELLO) == Panics
  {
    hide RlpItem;
    PanicItemPanics();
    assert PANIC_HELLO[1..] == PANIC_ITEM;
  }

  // ----- Every well-formed Hello --------------------------------------------

  /** An RLP item: a string, or a list of encoded items. */
  datatype Field = Text(d: bytes) | Terms(items: seq<bytes>) {
    ghost predicate Fits() {
      FitsUsize(|Enc()|)
    }

    function Enc(): bytes {
      if Text? then RlpBytes(d) else RlpList(items)
    }
  }

  /** A capability's name and whatever follows it in its list. */
  datatype Cap = Cap(name: bytes, more: seq<bytes>) {
    function Items(): seq<bytes> { [RlpBytes(name)] + more }

    ghost predicate Fits() { FitsUsize(|RlpBytes(name)|) && FitsUsize(|RlpList(Items())|) }
  }

  function CapItems(caps: seq<Cap>): seq<bytes> {
    if caps == [] then [] else [RlpList(caps[0].Items())] + CapItems(caps[1..])
  }

  datatype HelloMessage =
    HelloMessage(version: Field, client: Field, caps: seq<Cap>, more: seq<bytes>, trailing: bytes)
  {
    function Items(): seq<bytes> {
      [version.Enc(), client.Enc(), RlpList(CapItems(caps))] + more
    }

    function Enc(): bytes {
      [0] + RlpList(Items()) + trailing
    }

    /** All lengths fit in a machine word. */
    ghost predicate Fits() {
      && version.Fits() && client.Fits() && (forall i :: 0 <= i < |caps| ==> caps[i].Fits())
      && FitsUsize(|RlpList(CapItems(caps))|) && FitsUsize(|RlpList(Items())|)
    }
  }

  lemma FieldInverse(f: Field, rest: bytes)
    requires f.Fits()
    ensures RlpItem(f.Enc() + rest).Item? && RlpItem(f.Enc() + rest).value.1 == |f.Enc()|
  {
    hide RlpItem, RlpBytes, RlpList, FitsUsize;
    if f.Text? {
      BytesInverse(f.d, rest);
    } else {
      ListInverse(f.items, rest);
    }
  }

  lemma {:induction false} CapsDetected(caps: seq<Cap>)
    requires forall i :: 0 <= i < |caps| ==> caps[i].Fits()
    ensures CapsHaveArk1(Concat(CapItems(caps))) == Item(exists i :: 0 <= i < |caps| && caps[i].name == ARK1_MAGIC)
    decreases |caps|
  {
    hide RlpItem, RlpBytes, RlpList, FitsUsize;
    if caps == [] {
    } else {
      var first, rest := RlpList(caps[0].Items()), Concat(CapItems(caps[1..]));
      assert CapItems(caps)[1..] == CapItems(caps[1..]);
      ListInverse(caps[0].Items(), rest);
      BytesInverse(caps[0].name, Concat(caps[0].more));
      assert caps[0].Items()[1..] == caps[0].more;
      assert (first + rest)[|first|..] == rest;
      CapsDetected(caps[1..]);
      assert caps[0].name != ARK1_MAGIC && (exists i :: 0 <= i < |caps| && caps[i].name == ARK1_MAGIC) ==>
          exists i :: 0 <= i < |caps[1..]| && caps[1..][i].name == ARK1_MAGIC by {
        if i :| 0 <= i < |caps| && caps[i].name == ARK1_MAGIC {
          assert i > 0 ==> caps[1..][i - 1] == caps[i];
        }
      }
    }
  }

  lemma OuterParts(h: HelloMessage)
    ensures var outer, m, n := Concat(h.Items()), |h.version.Enc()|, |h.client.Enc()|;
            && outer == h.version.Enc() + (h.client.Enc() + (RlpList(CapItems(h.caps)) + Concat(h.more)))
            && m + n <= |outer|
            && outer[m..] == h.client.Enc() + (RlpList(CapItems(h.caps)) + Concat(h.more))
            && outer[m + n..] == RlpList(CapItems(h.caps)) + Concat(h.more)
  {
    hide RlpList, CapItems, Field.Enc;
    var items := h.Items();
    var r1, r2 := [items[1], items[2]] + h.more, [items[2]] + h.more;
    assert items[1..] == r1 && r1[1..] == r2 && r2[1..] == h.more;
    assert Concat(items) == items[0] + Concat(r1);
    assert Concat(r1) == items[1] + Concat(r2);
    assert Concat(r2) == items[2] + Concat(h.more);
  }

  /** Over any well-formed Hello, ARK1 is detected exactly when a capability has that name. */
  lemma Ark1DetectedIff(h: HelloMessage)
    requires h.Fits()
    ensures HelloInner(h.Enc()) == Item(exists i :: 0 <= i < |h.caps| && h.caps[i].name == ARK1_MAGIC)
  {
    hide RlpItem, RlpBytes, RlpList, FitsUsize, CapsHaveArk1, CapItems, Field.Enc, Field.Fits, Cap.Fits;
    var capItems := CapItems(h.caps);
    assert h.Enc()[1..] == RlpList(h.Items()) + h.trailing;
    ListInverse(h.Items(), h.trailing);
    OuterParts(h);
    FieldInverse(h.version, h.client.Enc() + (RlpList(capItems) + Concat(h.more)));
    FieldInverse(h.client, RlpList(capItems) + Concat(h.more));
    ListInverse(capItems, Concat(h.more));
    CapsDetected(h.caps);
  }

  const CLIENT_ID: bytes := [0x41, 0x72, 0x6B, 0x54, 0x75, 0x6E, 0x6E, 0x65, 0x6C, 0x2F, 0x30, 0x2E, 0x31]

  /** `encode_hello` */
  function EncodeHello(nodePub: bytes, includeArk1: bool): bytes {
    var caps := if includeArk1 then RlpList([RlpList([RlpBytes(ARK1_MAGIC), RlpU64(0)])]) else RlpList([]);
    [0] + RlpList([RlpU64(5), RlpBytes(CLIENT_ID), caps, RlpU64(30303), RlpBytes(nodePub)])
  }

  lemma Concat2(a: bytes, b: bytes)
    ensures Concat([a]) == a && Concat([a, b]) == a + b
  {
    assert [a, b][1..] == [b] && [b][1..] == [] && [a][1..] == [];
  }

  lemma EncodeHelloFits(nodePub: bytes, includeArk1: bool, h: HelloMessage)
    requires |nodePub| == 64
    requires h == HelloMessage(Text(U64Bytes(5)), Text(CLIENT_ID),
                    if includeArk1 then [Cap(ARK1_MAGIC, [RlpU64(0)])] else [], [RlpU64(30303), RlpBytes(nodePub)], [])
    ensures h.Fits() && |h.Enc()| < 0x1000
  {
    hide RlpItem, RlpBytes, RlpList, RlpU64, U64Bytes;
    EncodingLengths([], h.Items());
    RadixValues();
    U64IsBytes(5);
    U64IsBytes(0);
    U64IsBytes(30303);
    EncodingLengths(U64Bytes(5), CapItems(h.caps));
    EncodingLengths(CLIENT_ID, []);
    EncodingLengths(nodePub, []);
    EncodingLengths(ARK1_MAGIC, []);
    EncodingLengths(U64Bytes(0), []);
    EncodingLengths(U64Bytes(30303), []);
    if includeArk1 {
      Concat2(RlpBytes(ARK1_MAGIC), RlpU64(0));
      assert h.caps[0].Items() == [RlpBytes(ARK1_MAGIC), RlpU64(0)];
      EncodingLengths([], h.caps[0].Items());
      assert h.caps[1..] == [];
      assert CapItems(h.caps) == [RlpList(h.caps[0].Items())] + [];
      Concat2(RlpList(h.caps[0].Items()), []);
    }
    OuterParts(h);
    Concat2(RlpU64(30303), RlpBytes(nodePub));
  }

  /** The client's Hello is detected and the server's is not. */
  lemma EncodeHelloDetected(nodePub: bytes, includeArk1: bool)
    requires |nodePub| == 64
    ensures HelloInner(EncodeHello(nodePub, includeArk1)) == Item(includeArk1)
    ensures |EncodeHello(nodePub, includeArk1)| < 0x1000
  {
    hide RlpItem, RlpBytes, RlpList, RlpU64, HelloInner;
    U64IsBytes(5);
    U64IsBytes(0);
    var caps := if includeArk1 then [Cap(ARK1_MAGIC, [RlpU64(0)])] else [];
    var h := HelloMessage(Text(U64Bytes(5)), Text(CLIENT_ID), caps, [RlpU64(30303), RlpBytes(nodePub)], []);
    assert EncodeHello(nodePub, includeArk1) == h.Enc() by {
      if includeArk1 {
        assert caps[0].Items() == [RlpBytes(ARK1_MAGIC), RlpU64(0)] && caps[1..] == [];
      }
      assert CapItems(caps) == if includeArk1 then [RlpList([RlpBytes(ARK1_MAGIC), RlpU64(0)])] else [];
      assert h.Items() == [RlpU64(5), RlpBytes(CLIENT_ID), RlpList(CapItems(caps)), RlpU64(30303), RlpBytes(nodePub)];
    }
    EncodeHelloFits(nodePub, includeArk1, h);
    assert includeArk1 ==> caps[0].name == ARK1_MAGIC;
    Ark1DetectedIff(h);
  }

  lemma ShortList(items: seq<bytes>)
    requires |Concat(items)| <= SHORT_LIMIT
    ensures RlpList(items) == [0xC0 + |Concat(items)| as byte] + Concat(items)
  {
  }

  lemma TwoBytes()
    ensures BeLength(30303) == [0x76, 0x5F]
  {
    RadixValues();
    var be := BeLength(30303);
    BeLengthInverse(30303);
    FirstByte(30303);
    BeLengthShortest(30303, [0x76, 0x5F]);
    BeInjective(be);
    BeInjective([0x76, 0x5F]);
  }

  lemma NumberBytes()
    ensures RlpU64(5) == [0x05] && RlpU64(0) == [0x80] && RlpU64(30303) == [0x82, 0x76, 0x5F]
  {
    OneByte(5);
    TwoBytes();
  }

  lemma CapsBytes()
    ensures RlpList([]) == [0xC0]
    ensures RlpList([RlpList([RlpBytes(ARK1_MAGIC), RlpU64(0)])]) == [0xC7, 0xC6, 0x84, 0x41, 0x52, 0x4B, 0x31, 0x80]
  {
    hide RlpBytes, RlpList, RlpU64;
    var cap := [RlpBytes(ARK1_MAGIC), RlpU64(0)];
    NumberBytes();
    ShortString(ARK1_MAGIC);
    Concat2(RlpBytes(ARK1_MAGIC), RlpU64(0));
    ShortList(cap);
    Concat2(RlpList(cap), []);
    ShortList([RlpList(cap)]);
    ShortList([]);
  }

  lemma HelloPayload(a: bytes, b: bytes, c: bytes, d: bytes, e: bytes)
    ensures Concat([a, b, c, d, e]) == a + b + c + d + e
  {
    ConcatAppend([a, b], [c, d, e]);
    ConcatAppend([c], [d, e]);
    Concat2(a, b);
    Concat2(d, e);
    Concat2(c, []);
    assert [a, b] + [c, d, e] == [a, b, c, d, e] && [c] + [d, e] == [c, d, e];
    assert (a + b) + (c + (d + e)) == a + b + c + d + e;
  }

  /** A Hello with the given capabilities. */
  lemma HelloOf(caps: bytes, nodePub: bytes)
    requires |nodePub| == 64 && |caps| < 0x20
    ensures [0] + RlpList([RlpU64(5), RlpBytes(CLIENT_ID), caps, RlpU64(30303), RlpBytes(nodePub)])
         == [0x00, 0xF8, (0x54 + |caps|) as byte, 0x05, 0x8D] + CLIENT_ID + caps + [0x82, 0x76, 0x5F]
            + [0xB8, 0x40] + nodePub
  {
    hide RlpBytes, RlpList, RlpU64;
    NumberBytes();
    ShortString(CLIENT_ID);
    LongString(nodePub);
    HelloPayload(RlpU64(5), RlpBytes(CLIENT_ID), caps, RlpU64(30303), RlpBytes(nodePub));
    LongList([RlpU64(5), RlpBytes(CLIENT_ID), caps, RlpU64(30303), RlpBytes(nodePub)]);
  }

  /** The two Hellos, byte for byte: protocol version 5, the client's name, the capabilities, port 30303 and the key. */
  lemma HelloBytes(nodePub: bytes)
    requires |nodePub| == 64
    ensures EncodeHello(nodePub, false)
         == [0x00, 0xF8, 0x55, 0x05, 0x8D] + CLIENT_ID + [0xC0] + [0x82, 0x76, 0x5F] + [0xB8, 0x40] + nodePub
    ensures EncodeHello(nodePub, true)
         == [0x00, 0xF8, 0x5C, 0x05, 0x8D] + CLIENT_ID
            + [0xC7, 0xC6, 0x84, 0x41, 0x52, 0x4B, 0x31, 0x80] + [0x82, 0x76, 0x5F] + [0xB8, 0x40] + nodePub
  {
    hide RlpBytes, RlpList, RlpU64;
    CapsBytes();
    HelloOf(RlpList([]), nodePub);
    HelloOf(RlpList([RlpList([RlpBytes(ARK1_MAGIC), RlpU64(0)])]), nodePub);
  }

  /** Another message is no Hello, whatever it contains. */
  lemma OtherMessage(data: bytes)
    requires data == [] || data[0] != 0x00
    ensures HelloInner(data) == Item(false)
  {
  }
}
