/** Fixed-width unsigned arithmetic and powers of two, shared by the other modules. */
module Arith {

  const B8: nat := 0x100
  const B16: nat := 0x1_0000
  const B32: nat := 0x1_0000_0000
  const B64: nat := 0x1_0000_0000_0000_0000

  type Byte = x: nat | x < 0x100

  datatype Option<T> = None | Some(value: T)

  /** A truth value as C++ converts it to a number. */
  function AsBit(c: bool): nat {
    if c then 1 else 0
  }

  /** Reduction to an unsigned 32-bit value; `%` is never negative for a positive modulus. */
  function U32(x: int): (r: nat)
    ensures r < B32
  {
    x % B32
  }

  lemma U32Exact(x: int)
    requires 0 <= x < B32
    ensures U32(x) == x
  {
  }

  /** Conversion to a signed 32-bit value. */
  function S32(x: int): (r: int)
    ensures -0x8000_0000 <= r < 0x8000_0000
  {
    if U32(x) < 0x8000_0000 then U32(x) else U32(x) - B32
  }

  predicate Int32(s: int) {
    -0x8000_0000 <= s < 0x8000_0000
  }

  function U64(x: int): (r: nat)
    ensures r < B64
  {
    x % B64
  }

  function Pow2(n: nat): (p: nat)
    ensures p >= 1
  {
    if n == 0 then 1 else 2 * Pow2(n - 1)
  }

  lemma DoubleOnce(n: nat)
    requires n > 0
    ensures Pow2(n) == 2 * Pow2(n - 1)
  {
  }

  lemma Pow2IsOne()
    ensures Pow2(0) == 1
  {
  }

  /** Number of bits of `x`, the C++ `std::bit_width`. */
  function BitWidth(x: nat): (w: nat)
    ensures x < Pow2(w)
    ensures x > 0 ==> w > 0 && Pow2(w - 1) <= x
  {
    if x == 0 then 0 else 1 + BitWidth(x / 2)
  }

  lemma Pow2Add(m: nat, n: nat)
    ensures Pow2(m + n) == Pow2(m) * Pow2(n)
  {
    if m != 0 {
      Pow2Add(m - 1, n);
    }
  }

  lemma Pow2Monotone(m: nat, n: nat)
    requires m <= n
    ensures Pow2(m) <= Pow2(n)
  {
    if m < n {
      Pow2Monotone(m, n - 1);
    }
  }

  lemma Pow2At16()
    ensures Pow2(8) == B8
    ensures Pow2(15) == 0x8000
    ensures Pow2(16) == B16
    ensures Pow2(32) == B32
    ensures Pow2(64) == B64
  {
    assert Pow2(4) == 16;
    Pow2Add(4, 4);
    Pow2Add(8, 8);
    assert Pow2(16) == 2 * Pow2(15);
    Pow2Add(16, 16);
    Pow2Add(32, 32);
  }

  /** A value below 2^n has at most n bits, and one of at least 2^n has more. */
  lemma BitWidthBound(x: nat, n: nat)
    ensures x < Pow2(n) <==> BitWidth(x) <= n
  {
    var w := BitWidth(x);
    if w <= n {
      Pow2Monotone(w, n);
    } else {
      Pow2Monotone(n, w - 1);
    }
  }

  /** Multiplying by a non-negative factor keeps the order. */
  lemma MulMono(a: int, b: int, c: int)
    requires c >= 0
    ensures a <= b ==> a * c <= b * c
    ensures a < b && c > 0 ==> a * c < b * c
  {
    assert a <= b ==> (b - a) * c >= 0;
    assert a < b && c > 0 ==> (b - a) * c > 0;
    assert (b - a) * c == b * c - a * c;
  }

  /** Squares of non-negative numbers are ordered as the numbers are. */
  lemma SquareMono(a: int, b: int)
    requires a >= 0 && b >= 0
    ensures a <= b <==> a * a <= b * b
  {
    assert b * b - a * a == (b - a) * (b + a);
    MulMono(0, b - a, a + b);
    MulMono(b - a, 0, a + b);
  }

  lemma MulSmall(m: int, d: int)
    requires -m < m * d < m
    ensures d == 0
  {
    assert d >= 1 ==> m * d >= m;
    assert d <= -1 ==> m * d <= -m;
  }

  /** The remainder is the only residue in range. */
  lemma ModUnique(x: int, q: int, r: int, m: int)
    requires 0 <= r < m && x == q * m + r
    ensures x % m == r && x / m == q
  {
    var k := x / m;
    assert x == m * k + x % m;
    assert m * (k - q) == m * k - m * q;
    MulSmall(m, k - q);
  }
}
