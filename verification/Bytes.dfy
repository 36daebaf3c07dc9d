/** Bytes, exclusive or, and fixed-width integer encodings. */
module Bytes {
  newtype byte = x: int | 0 <= x < 256
  type bytes = seq<byte>

  // ----- Exclusive or -------------------------------------------------------

  function Pow2(n: nat): (r: nat)
    ensures r > 0
  {
    if n == 0 then 1 else 2 * Pow2(n - 1)
  }

  /** Bitwise exclusive or of two numbers of at most `width` bits. */
  function XorBits(width: nat, a: nat, b: nat): (r: nat)
    requires a < Pow2(width) && b < Pow2(width)
    ensures r < Pow2(width)
  {
    if width == 0 then 0 else (if a % 2 == b % 2 then 0 else 1) + 2 * XorBits(width - 1, a / 2, b / 2)
  }

  lemma HalfOf(bit: nat, half: nat)
    requires bit < 2
    ensures (bit + 2 * half) / 2 == half && (bit + 2 * half) % 2 == bit
  {
  }

  lemma {:induction false} XorBitsTwice(width: nat, a: nat, b: nat)
    requires a < Pow2(width) && b < Pow2(width)
    ensures XorBits(width, XorBits(width, a, b), b) == a
  {
    if width == 0 {
    } else {
      var bit := if a % 2 == b % 2 then 0 else 1;
      var rest := XorBits(width - 1, a / 2, b / 2);
      HalfOf(bit, rest);
      XorBitsTwice(width - 1, a / 2, b / 2);
      assert XorBits(width, bit + 2 * rest, b) == (if bit == b % 2 then 0 else 1) + 2 * (a / 2);
    }
  }

  lemma {:induction false} XorBitsSwap(width: nat, a: nat, b: nat)
    requires a < Pow2(width) && b < Pow2(width)
    ensures XorBits(width, a, b) == XorBits(width, b, a)
  {
    if width == 0 {
    } else {
      XorBitsSwap(width - 1, a / 2, b / 2);
    }
  }

  function XorByte(a: byte, b: byte): byte {
    assert Pow2(8) == 256;
    XorBits(8, a as nat, b as nat) as byte
  }

  /** Exclusive or of a message with a key stream of the same length. */
  function Xor(a: bytes, k: bytes): (r: bytes)
    requires |a| == |k|
    ensures |r| == |a|
  {
    seq(|a|, i requires 0 <= i < |a| => XorByte(a[i], k[i]))
  }

  lemma XorTwice(a: bytes, k: bytes)
    requires |a| == |k|
    ensures Xor(Xor(a, k), k) == a
  {
    forall i | 0 <= i < |a| ensures XorByte(XorByte(a[i], k[i]), k[i]) == a[i] {
      assert Pow2(8) == 256;
      XorBitsTwice(8, a[i] as nat, k[i] as nat);
    }
  }

  // ----- Fixed-width integers -----------------------------------------------

  /** The number of values of `width` bytes. */
  function Radix(width: nat): (r: nat)
    ensures r > 0
  {
    if width == 0 then 1 else 256 * Radix(width - 1)
  }

  /** The low `width` bytes of `n`, least significant first. */
  function Le(n: nat, width: nat): (r: bytes)
    ensures |r| == width
  {
    if width == 0 then [] else [(n % 256) as byte] + Le(n / 256, width - 1)
  }

  function FromLe(s: bytes): (n: nat)
    ensures n < Radix(|s|)
  {
    if s == [] then 0 else s[0] as nat + 256 * FromLe(s[1..])
  }

  lemma {:induction false} LeRoundTrip(n: nat, width: nat)
    requires n < Radix(width)
    ensures FromLe(Le(n, width)) == n
  {
    if width == 0 {
    } else {
      LeRoundTrip(n / 256, width - 1);
      assert Le(n, width)[1..] == Le(n / 256, width - 1);
    }
  }

  /** The low `width` bytes of `n`, most significant first. */
  function Be(n: nat, width: nat): (r: bytes)
    ensures |r| == width
  {
    if width == 0 then [] else Be(n / 256, width - 1) + [(n % 256) as byte]
  }

  function FromBe(s: bytes): (n: nat)
    ensures n < Radix(|s|)
  {
    if s == [] then 0 else 256 * FromBe(s[..|s| - 1]) + s[|s| - 1] as nat
  }

  lemma ModUnique(n: int, q: int, r: int, m: int)
    requires m > 0 && 0 <= r < m && n == m * q + r
    ensures n % m == r
  {
    var k := n / m - q;
    assert m * (n / m) + n % m == n;
    assert m * k == r - n % m;
    assert k >= 1 ==> m * k >= m;
    assert k <= -1 ==> m * k <= -m;
  }

  lemma ModSplit(n: nat, m: nat)
    requires m > 0
    ensures n % (256 * m) == 256 * (n / 256 % m) + n % 256
  {
    var q, r := n / 256 / m, n / 256 % m;
    assert n / 256 == m * q + r;
    assert 256 * (m * q) == (256 * m) * q;
    ModUnique(n, q, 256 * r + n % 256, 256 * m);
  }

  lemma BeTwo(n: nat)
    requires n < 0x1_0000
    ensures Be(n, 2) == [(n / 0x100) as byte, (n % 0x100) as byte]
  {
    assert Be(n / 256, 1) == Be(n / 256 / 256, 0) + [(n / 256 % 256) as byte];
  }

  lemma BeThree(n: nat)
    ensures Be(n, 3) == [(n / 0x1_0000 % 256) as byte, (n / 0x100 % 256) as byte, (n % 256) as byte]
  {
    var m := n / 256;
    assert Be(m / 256, 1) == Be(m / 256 / 256, 0) + [(m / 256 % 256) as byte];
    assert Be(m, 2) == Be(m / 256, 1) + [(m % 256) as byte];
    assert Be(n, 3) == Be(m, 2) + [(n % 256) as byte];
  }

  lemma BeNone(n: nat)
    ensures FromBe(Be(n, 0)) == 0
  {
  }

  lemma ModSmall(n: nat, m: nat)
    requires m > 0
    ensures n < m ==> n % m == n
  {
  }

  /** Reading back the last byte of a big-endian number. */
  lemma BeSnoc(n: nat, width: nat)
    requires width > 0
    ensures FromBe(Be(n, width)) == 256 * FromBe(Be(n / 256, width - 1)) + n % 256
  {
    assert Be(n, width)[..width - 1] == Be(n / 256, width - 1);
  }

  lemma {:induction false} BeRoundTrip(n: nat, width: nat)
    ensures FromBe(Be(n, width)) == n % Radix(width)
    ensures n < Radix(width) ==> FromBe(Be(n, width)) == n
  {
    hide Be, FromBe;
    if width == 0 {
      BeNone(n);
    } else {
      BeRoundTrip(n / 256, width - 1);
      ModSplit(n, Radix(width - 1));
      BeSnoc(n, width);
    }
    ModSmall(n, Radix(width));
  }

  /** Every byte string is the big-endian form of its number. */
  lemma {:induction false} BeInjective(s: bytes)
    ensures Be(FromBe(s), |s|) == s
  {
    if s == [] {
    } else {
      BeInjective(s[..|s| - 1]);
    }
  }

  lemma {:induction false} LargestNumber(s: bytes)
    requires forall i :: 0 <= i < |s| ==> s[i] == 0xFF
    ensures FromBe(s) == Radix(|s|) - 1
    decreases |s|
  {
    if s == [] {
    } else {
      LargestNumber(s[..|s| - 1]);
    }
  }

  lemma RadixValues()
    ensures Radix(1) == 0x100
    ensures Radix(2) == 0x1_0000
    ensures Radix(3) == 0x100_0000
    ensures Radix(4) == 0x1_0000_0000
    ensures Radix(8) == 0x1_0000_0000_0000_0000
  {
  }

  lemma DivUnique(n: int, q: int, r: int, m: int)
    requires m > 0 && 0 <= r < m && n == m * q + r
    ensures n / m == q
  {
    var k := n / m - q;
    assert m * (n / m) + n % m == n;
    assert m * k == r - n % m;
    assert k >= 1 ==> m * k >= m;
    assert k <= -1 ==> m * k <= -m;
  }

  lemma Expand(a: int, b: int, q: int, r: int)
    ensures a * (b * q + r) == (a * b) * q + a * r
  {
    assert a * (b * q) == (a * b) * q;
  }

  lemma Below(a: int, b: int, r: int)
    requires a > 0 && r < b
    ensures a * r <= a * b - a
  {
    assert a * r <= a * (b - 1);
  }

  lemma DivTwice(n: nat, a: nat, b: nat)
    requires a > 0 && b > 0 && a * b > 0
    ensures n / a / b == n / (a * b)
  {
    var m, rest := n / a, n % a;
    var q, r := m / b, m % b;
    Expand(a, b, q, r);
    Below(a, b, r);
    assert n == a * m + rest;
    assert m == b * q + r;
    var ab, ar := a * b, a * r;
    assert n == ab * q + (ar + rest);
    DivUnique(n, q, ar + rest, ab);
  }

  /** The bytes of a little-endian number are its digits, the lowest first. */
  lemma {:induction false} LeDigits(n: nat, width: nat, i: nat)
    requires i < width
    ensures Le(n, width)[i] as nat == n / Radix(i) % 256
    decreases width
  {
    if i == 0 {
    } else {
      LeDigits(n / 256, width - 1, i - 1);
      DivTwice(n, 256, Radix(i - 1));
      assert Le(n, width)[i] == Le(n / 256, width - 1)[i - 1];
    }
  }

  /** Big-endian bytes are the same ones in the other order. */
  lemma {:induction false} BeReversesLe(n: nat, width: nat, i: nat)
    requires i < width
    ensures Be(n, width)[width - 1 - i] == Le(n, width)[i]
    decreases width
  {
    if i == 0 {
    } else {
      BeReversesLe(n / 256, width - 1, i - 1);
    }
  }

  // ----- Sequences ----------------------------------------------------------

  function Min(a: nat, b: nat): nat {
    if a <= b then a else b
  }

  function Zeros(n: nat): (r: bytes)
    ensures |r| == n
    ensures forall i :: 0 <= i < n ==> r[i] == 0
  {
    seq(n, i => 0)
  }

  function Concat<T>(ss: seq<seq<T>>): seq<T> {
    if ss == [] then [] else ss[0] + Concat(ss[1..])
  }

  lemma {:induction false} ConcatAppend<T>(a: seq<seq<T>>, b: seq<seq<T>>)
    ensures Concat(a + b) == Concat(a) + Concat(b)
  {
    if a == [] {
      assert a + b == b;
    } else {
      assert (a + b)[0] == a[0];
      assert (a + b)[1..] == a[1..] + b;
      ConcatAppend(a[1..], b);
      assert Concat(a + b) == a[0] + Concat(a[1..] + b);
      assert a[0] + (Concat(a[1..]) + Concat(b)) == (a[0] + Concat(a[1..])) + Concat(b);
    }
  }

  lemma ConcatSnoc<T>(a: seq<seq<T>>, x: seq<T>)
    ensures Concat(a + [x]) == Concat(a) + x
  {
    ConcatAppend(a, [x]);
    assert [x][1..] == [];
  }

  /** A prefix of a list of blocks concatenates to a prefix. */
  lemma ConcatPrefix<T>(a: seq<seq<T>>, b: seq<seq<T>>)
    requires a <= b
    ensures Concat(a) <= Concat(b)
  {
  }

  lemma Middle<T>(a: seq<T>, b: seq<T>, c: seq<T>)
    ensures (a + b + c)[|a|..|a| + |b|] == b
  {
  }

  /** Moving `n` elements from the front of a buffer to the end of a log keeps their concatenation. */
  lemma MoveAcross<T>(log: seq<T>, buf: seq<T>, pos: nat, n: nat)
    requires pos + n <= |buf|
    ensures log + buf[pos..] == (log + buf[pos..][..n]) + buf[pos + n..]
  {
  }

  ghost predicate Distinct<T(!new)>(s: seq<T>) {
    forall i, j :: 0 <= i < j < |s| ==> s[i] != s[j]
  }
}
