/** Bytes, fixed-width integers as byte strings, and the bit operations the
    sources use, all over mathematical integers. */
module Bytes {
  type byte = b: int | 0 <= b < 0x100
  type bytes = seq<byte>

  const TWO_8: int := 0x100
  const TWO_16: int := 0x1_0000
  const TWO_32: int := 0x1_0000_0000

  datatype Option<+T> = None | Some(value: T)

  function Min(a: int, b: int): int {
    if a <= b then a else b
  }

  function Max(a: int, b: int): int {
    if a <= b then b else a
  }

  /** The bytes of an ASCII literal. */
  function Ascii(s: string): (b: bytes)
    requires forall i | 0 <= i < |s| :: s[i] < 128 as char
    ensures |b| == |s|
    ensures forall i | 0 <= i < |s| :: b[i] == s[i] as int
  {
    seq(|s|, i requires 0 <= i < |s| => s[i] as int)
  }

  predicate HasSuffix(s: bytes, p: bytes) {
    |p| <= |s| && s[|s| - |p|..] == p
  }

  // ---- little- and big-endian encodings -------------------------------------

  function Le16(n: int): (b: bytes)
    requires 0 <= n < TWO_16
    ensures |b| == 2
  {
    [n % 0x100, n / 0x100]
  }

  function Le32(n: int): (b: bytes)
    requires 0 <= n < TWO_32
    ensures |b| == 4
  {
    [n % 0x100, n / 0x100 % 0x100, n / 0x1_0000 % 0x100, n / 0x100_0000]
  }

  function Be32(n: int): (b: bytes)
    requires 0 <= n < TWO_32
    ensures |b| == 4
  {
    [n / 0x100_0000, n / 0x1_0000 % 0x100, n / 0x100 % 0x100, n % 0x100]
  }

  function U16At(s: bytes, at: int): (n: int)
    requires 0 <= at && at + 2 <= |s|
    ensures 0 <= n < TWO_16
  {
    s[at] as int + 0x100 * (s[at + 1] as int)
  }

  function U32At(s: bytes, at: int): (n: int)
    requires 0 <= at && at + 4 <= |s|
    ensures 0 <= n < TWO_32
  {
    s[at] as int + 0x100 * (s[at + 1] as int) + 0x1_0000 * (s[at + 2] as int) + 0x100_0000 * (s[at + 3] as int)
  }

  /** The big-endian number in the first four bytes. */
  function U32Be(s: bytes): (n: int)
    requires |s| >= 4
    ensures 0 <= n < TWO_32
  {
    0x100_0000 * (s[0] as int) + 0x1_0000 * (s[1] as int) + 0x100 * (s[2] as int) + s[3] as int
  }

  lemma Digits(n: int)
    requires 0 <= n < TWO_32
    ensures n == n % 0x100 + 0x100 * (n / 0x100 % 0x100) + 0x1_0000 * (n / 0x1_0000 % 0x100) + 0x100_0000 * (n / 0x100_0000)
  {
    assert n / 0x100 / 0x100 == n / 0x1_0000 && n / 0x1_0000 / 0x100 == n / 0x100_0000;
  }

  lemma Be32RoundTrip(n: int, rest: bytes)
    requires 0 <= n < TWO_32
    ensures U32Be(Be32(n) + rest) == n
  {
    Digits(n);
    var b := Be32(n);
    var s := b + rest;
    assert s[0] == b[0] && s[1] == b[1] && s[2] == b[2] && s[3] == b[3];
  }

  lemma Le32RoundTrip(n: int, s: bytes, at: int)
    requires 0 <= n < TWO_32 && 0 <= at && at + 4 <= |s|
    requires s[at..at + 4] == Le32(n)
    ensures U32At(s, at) == n
  {
    Digits(n);
    var t := s[at..at + 4];
    assert s[at] == t[0] && s[at + 1] == t[1] && s[at + 2] == t[2] && s[at + 3] == t[3];
  }

  lemma Le16RoundTrip(n: int, s: bytes, at: int)
    requires 0 <= n < TWO_16 && 0 <= at && at + 2 <= |s|
    requires s[at..at + 2] == Le16(n)
    ensures U16At(s, at) == n
  {
    var t := s[at..at + 2];
    assert s[at] == t[0] && s[at + 1] == t[1];
  }

  lemma {:induction false} MultiplyMonotone(a: nat, x: nat, y: nat)
    requires x <= y
    ensures 0 <= a * x <= a * y
  {
    if a > 0 {
      MultiplyMonotone(a - 1, x, y);
      assert a * x == (a - 1) * x + x && a * y == (a - 1) * y + y;
    }
  }

  /** The quotient is the only multiple count that fits. */
  lemma QuotientUnique(n: nat, c: nat, q: nat)
    requires c > 0 && q * c <= n < q * c + c
    ensures n / c == q
  {
    var d := n / c;
    assert n == c * d + n % c;
    assert c * (q + 1) == q * c + c && c * (d + 1) == c * d + c;
    MultiplyMonotone(c, q + 1, Max(q + 1, d));
    MultiplyMonotone(c, d + 1, Max(d + 1, q));
    assert c * q == q * c;
  }

  // ---- bit operations --------------------------------------------------------

  /** Bitwise exclusive or of two natural numbers. */
  function Xor(a: nat, b: nat): nat
    decreases a + b
  {
    if a == 0 && b == 0 then 0 else (if a % 2 == b % 2 then 0 else 1) + 2 * Xor(a / 2, b / 2)
  }

  /** Bitwise or of two natural numbers. */
  function Or(a: nat, b: nat): nat
    decreases a + b
  {
    if a == 0 && b == 0 then 0 else Max(a % 2, b % 2) + 2 * Or(a / 2, b / 2)
  }

  function Pow2(n: nat): (p: nat)
    ensures p > 0
  {
    if n == 0 then 1 else 2 * Pow2(n - 1)
  }

  lemma Halves(low: nat, high: nat)
    requires low < 2
    ensures (low + 2 * high) % 2 == low && (low + 2 * high) / 2 == high
  {
  }

  lemma {:induction false} XorSplits(a: nat, b: nat)
    ensures Xor(a, b) % 2 == if a % 2 == b % 2 then 0 else 1
    ensures Xor(a, b) / 2 == Xor(a / 2, b / 2)
  {
    Halves(if a % 2 == b % 2 then 0 else 1, Xor(a / 2, b / 2));
  }

  lemma {:induction false} SameHalves(a: nat, b: nat)
    requires a % 2 == b % 2 && a / 2 == b / 2
    ensures a == b
  {
  }

  lemma {:induction false} XorCancels(a: nat, b: nat)
    ensures Xor(Xor(a, b), b) == a
    decreases a + b
  {
    if a != 0 || b != 0 {
      XorCancels(a / 2, b / 2);
      XorSplits(a, b);
      XorSplits(Xor(a, b), b);
      SameHalves(Xor(Xor(a, b), b), a);
    }
  }

  /** Neither operation sets a bit above the width of its operands. */
  lemma {:induction false} BitsBounded(a: nat, b: nat, n: nat)
    requires a < Pow2(n) && b < Pow2(n)
    ensures Xor(a, b) < Pow2(n) && Or(a, b) < Pow2(n)
    decreases n
  {
    if n > 0 && (a != 0 || b != 0) {
      BitsBounded(a / 2, b / 2, n - 1);
    }
  }

  lemma Widths()
    ensures Pow2(8) == TWO_8 && Pow2(16) == TWO_16 && Pow2(32) == TWO_32
  {
    assert Pow2(4) == 16;
    assert Pow2(8) == 256;
    assert Pow2(12) == 0x1000;
    assert Pow2(16) == TWO_16;
    assert Pow2(20) == 0x10_0000;
    assert Pow2(24) == 0x100_0000;
    assert Pow2(28) == 0x1000_0000;
  }

  function XorByte(a: byte, b: byte): byte {
    Widths();
    BitsBounded(a, b, 8);
    Xor(a, b)
  }

  function Xor32(a: nat, b: nat): (r: nat)
    requires a < TWO_32 && b < TWO_32
    ensures r < TWO_32
  {
    Widths();
    BitsBounded(a, b, 32);
    Xor(a, b)
  }
}
