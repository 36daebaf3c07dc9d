/** The RLP encoder and decoder of the RLPx handshake (appendix B of the Ethereum Yellow Paper). */
module Rlp {
  import opened Bytes

  const SHORT_LIMIT: nat := 55

  /** The position of the first non-zero byte, or the last position. */
  function FirstNonZero(s: bytes): (i: nat)
    requires s != []
    ensures i < |s|
    ensures forall j :: 0 <= j < i ==> s[j] == 0
    ensures s[i] == 0 ==> i == |s| - 1
  {
    if |s| == 1 || s[0] != 0 then 0 else 1 + FirstNonZero(s[1..])
  }

  /** A length as big-endian bytes without leading zeros. */
  function BeLength(n: nat): (r: bytes)
    ensures 1 <= |r| <= 8
  {
    var be := Be(n, 8);
    be[FirstNonZero(be)..]
  }

  /** The values of a 64-bit `usize`. */
  const WORD: nat := 0x1_0000_0000_0000_0000

  predicate FitsUsize(n: nat) {
    n < WORD
  }

  function Header(short: byte, long: byte, len: nat): bytes
    requires short <= 0xC0 && long <= 0xF7
  {
    if len <= SHORT_LIMIT then [short + len as byte]
    else [long + |BeLength(len)| as byte] + BeLength(len)
  }

  function RlpBytes(data: bytes): (r: bytes) {
    if |data| == 1 && data[0] < 0x80 then data
    else Header(0x80, 0xB7, |data|) + data
  }

  function RlpU64(n: nat): bytes {
    if n == 0 then [0x80]
    else
      var be := Be(n, 8);
      RlpBytes(be[FirstNonZero(be)..])
  }

  function RlpList(items: seq<bytes>): bytes {
    var payload := Concat(items);
    Header(0xC0, 0xF7, |payload|) + payload
  }

  // ----- Decoding -----------------------------------------------------------

  /** What a decoder does: the task panics, or the input is malformed, or there is a value. */
  datatype Parsed<+T> = Panics | Malformed | Item(value: T) {
    predicate IsFailure() { !Item? }

    function PropagateFailure<U>(): Parsed<U>
      requires !Item?
    {
      if Panics? then Parsed<U>.Panics else Parsed<U>.Malformed
    }

    function Extract(): T
      requires Item?
    {
      value
    }
  }

  /** `len` bytes of content behind the first one. */
  function ShortItem(data: bytes, len: nat): Parsed<(bytes, nat)> {
    if |data| < 1 + len then Malformed else Item((data[1..1 + len], 1 + len))
  }

  /** A form whose length is in the `ll` bytes behind the first. The end of the item is a sum in 64 bits. Where it
      wraps around, it passes the length test, and the slice that ends before its start panics; a build with
      overflow checks panics at the sum. */
  function LongItem(data: bytes, ll: nat): Parsed<(bytes, nat)> {
    if |data| < 1 + ll then Malformed
    else
      var end := (1 + ll + FromBe(data[1..1 + ll])) % WORD;
      if |data| < end then Malformed
      else if end < 1 + ll then Panics
      else Item((data[1 + ll..end], end))
  }

  /** One item from the start of `data`: its content and the number of bytes it takes. */
  function RlpItem(data: bytes): (r: Parsed<(bytes, nat)>)
    ensures r.Item? ==> 1 <= r.value.1 <= |data| && |r.value.0| <= r.value.1
  {
    if data == [] then Malformed
    else
      var b0 := data[0] as nat;
      if b0 <= 0x7F then Item((data[..1], 1))
      else if b0 <= 0xB7 then ShortItem(data, b0 - 0x80)
      else if b0 <= 0xBF then LongItem(data, b0 - 0xB7)
      else if b0 <= 0xF7 then ShortItem(data, b0 - 0xC0)
      else LongItem(data, b0 - 0xF7)
  }

  /** The loop over the bytes of a long form's length. */
  method ReadLength(data: bytes, ll: nat) returns (len: nat)
    requires 1 + ll <= |data|
    ensures len == FromBe(data[1..1 + ll])
  {
    len := 0;
    for i := 0 to ll
      invariant len == FromBe(data[1..1 + i])
    {
      assert data[1..1 + (i + 1)][..i] == data[1..1 + i];
      len := len * 256 + data[1 + i] as nat;
    }
  }

  /** `rlp_item` */
  method ReadItem(data: bytes) returns (r: Parsed<(bytes, nat)>)
    ensures r == RlpItem(data)
  {
    hide FromBe;
    if data == [] {
      return Malformed;
    }
    var b0 := data[0] as nat;
    if b0 <= 0x7F {
      return Item((data[..1], 1));
    } else if b0 <= 0xB7 || 0xBF < b0 <= 0xF7 {
      var len := if b0 <= 0xB7 then b0 - 0x80 else b0 - 0xC0;
      if |data| < 1 + len {
        return Malformed;
      }
      return Item((data[1..1 + len], 1 + len));
    } else {
      var ll := if b0 <= 0xBF then b0 - 0xB7 else b0 - 0xF7;
      if |data| < 1 + ll {
        return Malformed;
      }
      var len := ReadLength(data, ll);
      var end := (1 + ll + len) % WORD;
      if |data| < end {
        return Malformed;
      }
      if end < 1 + ll {
        return Panics;
      }
      return Item((data[1 + ll..end], end));
    }
  }

  // ----- When decoding panics -----------------------------------------------

  /** The sum of a long form's header and the length it announces does not fit in 64 bits. */
  predicate SumOverflows(data: bytes) {
    && data != []
    && var b0 := data[0] as nat;
    && (0xB7 < b0 <= 0xBF || 0xF7 < b0)
    && var ll := if b0 <= 0xBF then b0 - 0xB7 else b0 - 0xF7;
    && 1 + ll <= |data|
    && 1 + ll + FromBe(data[1..1 + ll]) >= WORD
  }

  lemma {:induction false} RadixGrows(a: nat, b: nat)
    requires a <= b
    ensures Radix(a) <= Radix(b)
    decreases b
  {
    if a == b {
    } else {
      RadixGrows(a, b - 1);
    }
  }

  /** A length of fewer than eight bytes never overflows the sum, and one of eight bytes that does wraps it to less
      than the header. */
  lemma SumWraps(ll: nat, len: nat)
    requires 1 <= ll <= 8 && len < Radix(ll)
    ensures 1 + ll + len >= WORD <==> ll == 8 && len >= WORD - 9
    ensures 1 + ll + len >= WORD <==> (1 + ll + len) % WORD < 1 + ll
  {
    RadixValues();
    if ll < 8 {
      RadixGrows(ll, 7);
    }
  }

  /** Decoding panics exactly when that sum overflows, which takes an eight-byte length of at least 2^64 - 9. With or
      without overflow checks the inputs are the same. */
  lemma PanicsIff(data: bytes)
    ensures RlpItem(data).Panics? <==> SumOverflows(data)
    ensures RlpItem(data).Panics? <==>
              |data| >= 9 && (data[0] == 0xBF || data[0] == 0xFF) && FromBe(data[1..9]) >= WORD - 9
  {
    hide FromBe;
    if data != [] {
      var b0 := data[0] as nat;
      if 0xB7 < b0 <= 0xBF || 0xF7 < b0 {
        var ll := if b0 <= 0xBF then b0 - 0xB7 else b0 - 0xF7;
        if 1 + ll <= |data| {
          SumWraps(ll, FromBe(data[1..1 + ll]));
        }
      }
    }
  }

  /** The shortest inputs that panic the decoder have nine bytes; this is one. */
  const PANIC_ITEM: bytes := [0xFF, 0xFF, 0xFF, 0xFF, 0xFF, 0xFF, 0xFF, 0xFF, 0xFF]

  lemma PanicItemPanics()
    ensures RlpItem(PANIC_ITEM) == Panics && SumOverflows(PANIC_ITEM)
  {
    hide FromBe;
    RadixValues();
    LargestNumber(PANIC_ITEM[1..9]);
    PanicsIff(PANIC_ITEM);
  }

  // ----- Decoding inverts encoding ------------------------------------------

  lemma {:induction false} DropZeros(s: bytes, i: nat)
    requires i <= |s| && forall j :: 0 <= j < i ==> s[j] == 0
    ensures FromBe(s[i..]) == FromBe(s)
    decreases |s|
  {
    if i == |s| {
      if s != [] {
        DropZeros(s[..|s| - 1], i - 1);
        assert s[..|s| - 1][i - 1..] == [];
      }
    } else {
      DropZeros(s[..|s| - 1], i);
      assert s[i..][..|s| - i - 1] == s[..|s| - 1][i..];
    }
  }

  lemma BeLengthInverse(n: nat)
    requires FitsUsize(n)
    ensures FromBe(BeLength(n)) == n
  {
    RadixValues();
    var be := Be(n, 8);
    BeRoundTrip(n, 8);
    DropZeros(be, FirstNonZero(be));
  }

  lemma ShortItemInverse(lead: byte, payload: bytes, rest: bytes)
    ensures ShortItem([lead] + payload + rest, |payload|) == Item((payload, 1 + |payload|))
  {
  }

  lemma LongItemAt(data: bytes, ll: nat, len: nat)
    requires 1 + ll + len <= |data| && FromBe(data[1..1 + ll]) == len && FitsUsize(1 + ll + len)
    ensures LongItem(data, ll) == Item((data[1 + ll..1 + ll + len], 1 + ll + len))
  {
    hide FromBe;
  }

  lemma LongItemInverse(lead: byte, lenEnc: bytes, payload: bytes, rest: bytes)
    requires FromBe(lenEnc) == |payload| && FitsUsize(1 + |lenEnc| + |payload|)
    ensures LongItem([lead] + lenEnc + payload + rest, |lenEnc|) == Item((payload, 1 + |lenEnc| + |payload|))
  {
    hide FromBe, LongItem, FitsUsize;
    var data := [lead] + lenEnc + payload + rest;
    assert data[1..1 + |lenEnc|] == lenEnc;
    Middle([lead] + lenEnc, payload, rest);
    LongItemAt(data, |lenEnc|, |payload|);
  }

  /** Both header forms announce the payload, whatever follows. */
  lemma HeaderInverse(short: byte, long: byte, payload: bytes, rest: bytes)
    requires (short == 0x80 && long == 0xB7) || (short == 0xC0 && long == 0xF7)
    requires FitsUsize(|Header(short, long, |payload|) + payload|)
    ensures var item := Header(short, long, |payload|) + payload;
            RlpItem(item + rest) == Item((payload, |item|))
  {
    hide BeLength, ShortItem, LongItem;
    if |payload| <= SHORT_LIMIT {
      ShortItemInverse(short + |payload| as byte, payload, rest);
    } else {
      BeLengthInverse(|payload|);
      LongItemInverse(long + |BeLength(|payload|)| as byte, BeLength(|payload|), payload, rest);
    }
  }

  lemma BytesInverse(d: bytes, rest: bytes)
    requires FitsUsize(|RlpBytes(d)|)
    ensures RlpItem(RlpBytes(d) + rest) == Item((d, |RlpBytes(d)|))
  {
    hide ShortItem, LongItem, Header;
    if |d| == 1 && d[0] < 0x80 {
      assert (d + rest)[..1] == d;
    } else {
      HeaderInverse(0x80, 0xB7, d, rest);
    }
  }

  lemma ListInverse(items: seq<bytes>, rest: bytes)
    requires FitsUsize(|RlpList(items)|)
    ensures RlpItem(RlpList(items) + rest) == Item((Concat(items), |RlpList(items)|))
  {
    HeaderInverse(0xC0, 0xF7, Concat(items), rest);
  }

  lemma EncodingLengths(d: bytes, items: seq<bytes>)
    ensures |d| <= |RlpBytes(d)| <= |d| + 9
    ensures |Concat(items)| < |RlpList(items)| <= |Concat(items)| + 9
  {
  }

  /** A number is encoded as the string of its significant bytes. */
  function U64Bytes(n: nat): bytes {
    if n == 0 then [] else BeLength(n)
  }

  lemma U64IsBytes(n: nat)
    ensures RlpU64(n) == RlpBytes(U64Bytes(n)) && |U64Bytes(n)| <= 8
  {
  }

  lemma U64Inverse(n: nat, rest: bytes)
    requires FitsUsize(n)
    ensures RlpItem(RlpU64(n) + rest).Item? && RlpItem(RlpU64(n) + rest).value.1 == |RlpU64(n)|
    ensures FromBe(RlpItem(RlpU64(n) + rest).value.0) == n
  {
    hide RlpItem;
    EncodingLengths(U64Bytes(n), []);
    if n == 0 {
      BytesInverse([], rest);
      assert RlpBytes([]) == [0x80];
    } else {
      BeLengthInverse(n);
      BytesInverse(BeLength(n), rest);
    }
  }

  // ----- Encodings are the shortest ones ------------------------------------

  lemma {:induction false} LeadingPart(s: bytes)
    requires s != [] && s[0] != 0
    ensures FromBe(s) >= Radix(|s| - 1)
    decreases |s|
  {
    if |s| == 1 {
    } else {
      LeadingPart(s[..|s| - 1]);
    }
  }

  lemma FirstByte(n: nat)
    requires FitsUsize(n) && n > 0
    ensures BeLength(n)[0] != 0
  {
    BeLengthInverse(n);
  }

  /** No fewer bytes hold the length. */
  lemma BeLengthShortest(n: nat, s: bytes)
    requires FitsUsize(n) && n > 0 && FromBe(s) == n
    ensures |BeLength(n)| <= |s|
  {
    var be := BeLength(n);
    BeLengthInverse(n);
    FirstByte(n);
    LeadingPart(be);
    if |s| < |be| {
      RadixGrows(|s|, |be| - 1);
    }
  }

  lemma OneByte(n: nat)
    requires 0 < n < 0x100
    ensures BeLength(n) == [n as byte]
  {
    RadixValues();
    BeLengthInverse(n);
    FirstByte(n);
    BeLengthShortest(n, [n as byte]);
  }

  /** The encodings of strings and lists of fewer than 256 bytes. */
  lemma ShortString(d: bytes)
    requires 1 < |d| <= SHORT_LIMIT
    ensures RlpBytes(d) == [0x80 + |d| as byte] + d
  {
  }

  lemma LongString(d: bytes)
    requires SHORT_LIMIT < |d| < 0x100
    ensures RlpBytes(d) == [0xB8, |d| as byte] + d
  {
    OneByte(|d|);
  }

  lemma LongList(items: seq<bytes>)
    requires SHORT_LIMIT < |Concat(items)| < 0x100
    ensures RlpList(items) == [0xF8, |Concat(items)| as byte] + Concat(items)
  {
    OneByte(|Concat(items)|);
  }

  /** A long form that takes the whole input announces its content. */
  lemma LongItemParts(x: bytes, ll: nat)
    requires 1 <= ll <= 8 && LongItem(x, ll).Item? && LongItem(x, ll).value.1 == |x|
    ensures 1 + ll <= |x| && FromBe(x[1..1 + ll]) == |LongItem(x, ll).value.0| == |x| - 1 - ll
  {
    hide FromBe;
    SumWraps(ll, FromBe(x[1..1 + ll]));
  }

  lemma LongForm(d: bytes, x: bytes)
    requires FitsUsize(|RlpBytes(d)|) && RlpItem(x) == Item((d, |x|)) && |d| > SHORT_LIMIT
    ensures |RlpBytes(d)| <= |x|
  {
    hide FromBe, BeLength, LongItem;
    var b0 := x[0] as nat;
    assert b0 > 0xF7 || 0xB7 < b0 <= 0xBF;
    var ll := if b0 <= 0xBF then b0 - 0xB7 else b0 - 0xF7;
    LongItemParts(x, ll);
    BeLengthShortest(|d|, x[1..1 + ll]);
  }

  /** No shorter input decodes to the same string. */
  lemma EncodingShortest(d: bytes, x: bytes)
    requires FitsUsize(|RlpBytes(d)|) && RlpItem(x) == Item((d, |x|))
    ensures |RlpBytes(d)| <= |x|
  {
    hide FromBe, BeLength;
    var b0 := x[0] as nat;
    if |d| > SHORT_LIMIT && b0 > 0x7F {
      LongForm(d, x);
    }
  }

  /** The first byte tells strings from lists. */
  lemma KindTells(d: bytes, items: seq<bytes>)
    ensures RlpBytes(d) != [] && RlpBytes(d)[0] < 0xC0
    ensures RlpList(items) != [] && RlpList(items)[0] >= 0xC0
  {
  }

  // ----- What decodes -------------------------------------------------------

  ghost predicate LongFormOf(x: bytes, d: bytes, k: nat)
    requires 1 <= k <= 8
  {
    && |x| == 1 + k + |d| && (x[0] == 0xB7 + k as byte || x[0] == 0xF7 + k as byte)
    && FromBe(x[1..1 + k]) == |d| && x[1 + k..] == d
  }

  /** `x` is a form of `d`, canonical or not: the byte itself, or a short or a long header and `d`, where the length of
      a long form may have leading zeros. */
  ghost predicate Form(x: bytes, d: bytes) {
    || (x == d && |d| == 1 && d[0] < 0x80)
    || (|d| <= SHORT_LIMIT && (x == [0x80 + |d| as byte] + d || x == [0xC0 + |d| as byte] + d))
    || exists k: nat :: 1 <= k <= 8 && LongFormOf(x, d, k)
  }

  lemma ShortDecodes(x: bytes, d: bytes, rest: bytes, len: nat)
    requires x != []
    ensures ShortItem(x + rest, len) == Item((d, |x|)) <==> |d| == len && x == [x[0]] + d
  {
    if |x| == 1 + len {
      assert (x + rest)[1..1 + len] == x[1..] && x == [x[0]] + x[1..];
    }
  }

  lemma LongDecodes(x: bytes, d: bytes, rest: bytes, ll: nat)
    requires 1 <= ll <= 8 && x != [] && FitsUsize(|x|)
    ensures LongItem(x + rest, ll) == Item((d, |x|))
        <==> |x| == 1 + ll + |d| && FromBe(x[1..1 + ll]) == |d| && x[1 + ll..] == d
  {
    hide FromBe;
    var data := x + rest;
    if 1 + ll <= |x| {
      assert data[1..1 + ll] == x[1..1 + ll];
      SumWraps(ll, FromBe(x[1..1 + ll]));
      assert data[1 + ll..|x|] == x[1 + ll..];
    } else if 1 + ll <= |data| {
      SumWraps(ll, FromBe(data[1..1 + ll]));
    }
  }

  /** The decoder accepts exactly these forms, whatever follows them. */
  lemma DecodesIff(x: bytes, d: bytes, rest: bytes)
    requires FitsUsize(|x|) && x != []
    ensures RlpItem(x + rest) == Item((d, |x|)) <==> Form(x, d)
  {
    hide FromBe, LongItem, FitsUsize;
    var data, b0 := x + rest, x[0] as nat;
    assert data[0] == x[0];
    if b0 <= 0x7F {
      assert data[..1] == x[..1];
      assert |x| == 1 ==> x[..1] == x;
    } else if b0 <= 0xB7 || 0xBF < b0 <= 0xF7 {
      ShortDecodes(x, d, rest, if b0 <= 0xB7 then b0 - 0x80 else b0 - 0xC0);
    } else {
      var ll := if b0 <= 0xBF then b0 - 0xB7 else b0 - 0xF7;
      LongDecodes(x, d, rest, ll);
      if LongFormOf(x, d, ll) {
        assert Form(x, d);
      }
      if Form(x, d) {
        var k: nat :| 1 <= k <= 8 && LongFormOf(x, d, k);
        assert k == ll;
      }
    }
  }
}
