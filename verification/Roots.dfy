/** Integer square roots: the chord-plus-Heron versions and the odd-number subtraction loops. */
module Roots {
  import opened Arith

  /** `r` is the floor square root of `x`. */
  predicate IsRoot(x: int, r: int) {
    0 <= r && r * r <= x < (r + 1) * (r + 1)
  }

  lemma RootUnique(x: int, r: int, s: int)
    requires IsRoot(x, r) && IsRoot(x, s)
    ensures r == s
  {
    SquareMono(r + 1, s);
    SquareMono(s + 1, r);
  }

  lemma RootExists(x: nat) returns (r: nat)
    ensures IsRoot(x, r)
  {
    r := 0;
    while (r + 1) * (r + 1) <= x
      invariant r * r <= x
      decreases x - r
    {
      r := r + 1;
    }
  }

  /** The root of a 32-bit value has 16 bits. */
  lemma RootBound(x: nat, s: nat)
    requires x < B32 && IsRoot(x, s)
    ensures s < B16
  {
    SquareMono(B16, s);
  }

  /** One step of Heron's method on integers. */
  function Heron(x: nat, y: nat): nat
    requires y > 0
  {
    (y + x / y) / 2
  }

  /** The arithmetic mean is at least the geometric mean. */
  lemma MeanAboveRoot(a: nat, b: nat, s: nat)
    requires s * s < a * b
    ensures 2 * s < a + b
  {
    SumSquared(a, b);
    Square(a - b);
    assert (2 * s) * (2 * s) == 4 * (s * s);
    SquareMono(a + b, 2 * s);
  }

  lemma SumSquared(a: int, b: int)
    ensures (a + b) * (a + b) == (a - b) * (a - b) + 4 * (a * b)
  {
  }

  /** A Heron step never lands below the root. */
  lemma HeronLower(x: nat, y: nat, s: nat)
    requires y > 0 && IsRoot(x, s)
    ensures Heron(x, y) >= s
  {
    assert y * (x / y + 1) > x;
    MeanAboveRoot(y, x / y + 1, s);
  }

  /** A Heron step from `y` overshoots the root by at most `e` when (y - s - 1)^2 <= 2*e*y. */
  lemma HeronUpper(x: nat, y: nat, s: nat, e: nat)
    requires y > 0 && IsRoot(x, s)
    requires (y - (s + 1)) * (y - (s + 1)) <= 2 * e * y
    ensures Heron(x, y) <= s + e
  {
    var q, r := x / y, s + 1;
    var limit := 2 * r + 2 * e - y;
    assert q * y <= x;
    HeronIdentity(y, r, e);
    MulMono(limit, q, y);
  }

  lemma HeronIdentity(y: int, r: int, e: int)
    ensures (2 * r + 2 * e - y) * y + (y - r) * (y - r) == r * r + 2 * e * y
  {
  }

  /** The upward refinement: when x / y is not below y no subtraction wraps. */
  lemma StepUp(x: nat, y: nat)
    requires 0 < y < B16 && x < B32 && y <= x / y
    ensures U32(y + U32(x / y - y) / 2) == Heron(x, y)
  {
    MulMono(x + 1, x / y, y);
    MulMono(1, y, x + 1);
    assert y * (x / y) <= x;
    MeanUp(y, x / y);
  }

  lemma MeanUp(y: nat, q: int)
    requires 0 < y < B16 && y <= q < B32
    ensures U32(y + U32(q - y) / 2) == (y + q) / 2
  {
    assert U32(q - y) == q - y;
    assert y + (q - y) / 2 == (y + q) / 2;
  }

  /**
   * The downward refinement: the unsigned subtraction wraps, and the logical shift
   * leaves the true Heron value plus 2^31.
   */
  lemma StepDown(x: nat, y: nat)
    requires 0 < y <= B16 && x / y < y
    ensures U32(y + U32(x / y - y) / 2) == 0x8000_0000 + Heron(x, y)
  {
    WrappedMean(y, x / y);
  }

  lemma WrappedMean(y: nat, q: int)
    requires 0 <= q < y <= B16
    ensures U32(y + U32(q - y) / 2) == 0x8000_0000 + (y + q) / 2
  {
    assert U32(q - y) == B32 + q - y;
    assert y + (B32 + q - y) / 2 == 0x8000_0000 + (y + q) / 2;
  }

  /** Squaring modulo 2^32 forgets an excess of 2^31. */
  lemma SquareForgetsTopBit(t: nat)
    requires t < B16
    ensures U32((0x8000_0000 + t) * (0x8000_0000 + t)) == t * t
  {
    TopBitIdentity(t);
    SquareMono(t, B16 - 1);
    ModUnique((0x8000_0000 + t) * (0x8000_0000 + t), 0x4000_0000 + t, t * t, B32);
  }

  lemma TopBitIdentity(t: int)
    ensures (0x8000_0000 + t) * (0x8000_0000 + t) == (0x4000_0000 + t) * 0x1_0000_0000 + t * t
  {
  }

  /** The straight line through the square roots of 4^k and 4^(k+1), written with b = 2^k. */
  function Chord(x: nat, b: nat): nat
    requires b > 0 && b * b <= x
  {
    b + (x - b * b) / 3 / b
  }

  /** The chord estimate never exceeds the root and misses it by at most b/12 + 1. */
  lemma ChordBound(x: nat, b: nat, s: nat)
    requires b > 0 && b * b <= x < 4 * (b * b) && IsRoot(x, s)
    ensures b <= Chord(x, b) <= s < 2 * b
    ensures 12 * (s - Chord(x, b)) <= b + 11
  {
    var v := (x - b * b) / 3;
    var w := v / b;
    SquareMono(s + 1, b);
    SquareMono(2 * b, s);
    assert b * w <= v < b * (w + 1);
    ChordBelow(x, b, s, w);
    ChordNear(x, b, s, w);
  }

  /** The chord point cannot be above the root: the root is concave. */
  lemma ChordBelow(x: nat, b: nat, s: nat, w: nat)
    requires b > 0 && IsRoot(x, s) && b <= s < 2 * b
    requires 3 * (b * w) <= x - b * b
    ensures b + w <= s
  {
    var u := s - b + 1;
    SquareOfSum(b, u);
    MulMono(u, b, u);
    MulMono(u, w, b);
    Commute(b, w);
    Commute(b, u);
  }

  lemma SquareOfSum(b: int, u: int)
    ensures (b + u) * (b + u) == b * b + 2 * (b * u) + u * u
  {
  }

  lemma Commute(a: int, b: int)
    ensures a * b == b * a
  {
  }

  /** The gap under the root is largest half way, where it is a twelfth of b. */
  lemma ChordNear(x: nat, b: nat, s: nat, w: nat)
    requires b > 0 && IsRoot(x, s) && b + w <= s
    requires x - b * b < 3 * (b * (w + 1))
    ensures 12 * (s - (b + w)) <= b + 11
  {
    var d := s - (b + w);
    var z := 2 * s - 3 * b;
    assert w + 1 == s - d - b + 1;
    GapIdentity(b, s, d, w + 1);
    Square(z);
    MulMono(b + 12, 12 * d, b);
  }

  lemma GapIdentity(b: int, s: int, d: int, w: int)
    requires w == s - d - b + 1
    ensures 12 * (b * w) - 4 * (s * s) + 4 * (b * b)
         == (b + 12) * b - (12 * d) * b - (2 * s - 3 * b) * (2 * s - 3 * b)
  {
    assert b * w == b * (s - d - b + 1) == b * s - b * d - b * b + b;
  }

  lemma Square(z: int)
    ensures z * z >= 0
  {
  }

  /** After the first refinement of a chord estimate the second lands within one of the root. */
  lemma TwoStepsSuffice(x: nat, b: nat, s: nat)
    requires 0 < b <= 0x8000 && b * b <= x < 4 * (b * b) && IsRoot(x, s)
    ensures Chord(x, b) > 0
    ensures s <= Heron(x, Chord(x, b))
    ensures var y := Heron(x, Chord(x, b)); s < y ==> s <= Heron(x, y) <= s + 1
  {
    ChordBound(x, b, s);
    var y0 := Chord(x, b);
    HeronLower(x, y0, s);
    var y := Heron(x, y0);
    if s < y {
      HeronLower(x, y, s);
      var f := y - s - 1;
      FirstOvershoot(x, b, s, f);
      HeronUpper(x, y, s, 1);
    }
  }

  /** `HeronUpper` read backwards. */
  lemma HeronOvershoot(x: nat, y: nat, s: nat, e: nat)
    requires y > 0 && IsRoot(x, s) && Heron(x, y) > s + e
    ensures (s + 1 - y) * (s + 1 - y) > 2 * e * y
  {
    assert (s + 1 - y) * (s + 1 - y) == (y - (s + 1)) * (y - (s + 1));
    if (y - (s + 1)) * (y - (s + 1)) <= 2 * e * y {
      HeronUpper(x, y, s, e);
      assert false;
    }
  }

  lemma Scale(p: int)
    ensures (12 * p) * (12 * p) == 144 * (p * p)
  {
  }

  /** If the first step lands f + 1 above the root then f^2 <= 2*y. */
  lemma FirstOvershoot(x: nat, b: nat, s: nat, f: nat)
    requires 0 < b <= 0x8000 && b * b <= x < 4 * (b * b) && IsRoot(x, s)
    requires Chord(x, b) > 0 && Heron(x, Chord(x, b)) == s + f + 1
    ensures f * f <= 2 * (s + f + 1)
  {
    ChordBound(x, b, s);
    var y0 := Chord(x, b);
    var p := s + 1 - y0;
    HeronOvershoot(x, y0, s, f);
    MulMono(b, y0, 2 * f);
    SquareMono(12 * p, b + 23);
    Scale(p);
    assert b * (2 * f) == 2 * f * b && y0 * (2 * f) == 2 * f * y0;
    OvershootSmall(b, f);
  }

  /** Below b = 2^15 an overshoot of about b/288 has a square of at most 2*b. */
  lemma OvershootSmall(b: nat, f: nat)
    requires 0 < b <= 0x8000
    requires 144 * (2 * f * b) < (b + 23) * (b + 23)
    ensures f * f <= 2 * (b + f)
  {
    var g := f - 2;
    assert (b + 23) * (b + 23) == b * b + 46 * b + 529;
    assert 144 * (2 * f * b) == 288 * g * b + 576 * b;
    assert (b + 288) * b == b * b + 288 * b;
    MulMono(b + 288, 288 * g, b);
    assert 288 * g < b + 288;
    if g > 0 {
      SquareMono(288 * g, b + 288);
      assert (288 * g) * (288 * g) == 82944 * (g * g);
      assert (b + 288) * (b + 288) == b * b + 576 * b + 82944;
      MulMono(b, 0x8000, b);
      assert f * f == g * g + 4 * g + 4;
    }
  }

  /**
   * With b the power of two below the root: the first refinement leaves 16 bits only at
   * the largest 32-bit value, where it lands exactly on 2^16.
   */
  lemma FirstStepFits(x: nat, b: nat)
    requires 0 < b <= 0x4000 || b == 0x8000
    requires b * b <= x < 4 * (b * b) && x < B32
    ensures 0 < Chord(x, b) < B16 && Chord(x, b) <= x / Chord(x, b)
    ensures if x == B32 - 1 then Heron(x, Chord(x, b)) == B16 else Heron(x, Chord(x, b)) < B16
  {
    hide IsRoot, Chord;
    var s := RootExists(x);
    ChordBound(x, b, s);
    RootBound(x, s);
    var y := Chord(x, b);
    QuotientAbove(x, y, s);
    if b <= 0x4000 {
      SquareMono(b, 0x4000);
      QuotientBelow(x, b, y);
    } else {
      TopScale(x, y);
    }
  }

  lemma QuotientAbove(x: nat, y: nat, s: nat)
    requires 0 < y <= s && IsRoot(x, s)
    ensures y <= x / y
  {
    SquareMono(y, s);
    assert x < (x / y + 1) * y;
    MulMono(x / y + 1, y, y);
  }

  lemma TopScale(x: nat, y: nat)
    requires 0x4000_0000 <= x < B32 && 0x8000 <= y < B16 && y == Chord(x, 0x8000)
    ensures if x == B32 - 1 then Heron(x, y) == B16 else Heron(x, y) < B16
  {
    hide Heron;
    var m, g := B32 - x, B16 - y;
    assert y == 0x8000 + (0xC000_0000 - m) / 98304;
    assert 98304 * (g - 1) < m <= 98304 * g;
    FailurePoint(x, y, m, g);
  }

  lemma QuotientBelow(x: nat, b: nat, y: nat)
    requires 0 < b <= y < 2 * b && x < 4 * (b * b)
    ensures x / y < 4 * b
  {
    var q := x / y;
    assert q * y <= x;
    MulMono(b, y, 4 * b);
    MulMono(4 * b, q, y);
    assert 4 * (b * b) == b * (4 * b);
    assert 4 * b * y == y * (4 * b);
  }

  /** At the top scale y*(2^17 - y) is 2^32 - g^2, and g^2 reaches m only for m = 1. */
  lemma FailurePoint(x: nat, y: nat, m: nat, g: nat)
    requires x == B32 - m && y == B16 - g && m >= 1 && 0 <= g <= 0x8000
    requires 98304 * (g - 1) < m <= 98304 * g
    ensures if m == 1 then Heron(x, y) == B16 else Heron(x, y) < B16
  {
    if m == 1 {
      assert g == 1;
      assert x / y == 65537;
    } else {
      MulMono(g, 0x8000, g);
      assert g * g < m;
      var q := x / y;
      var limit := 2 * B16 - y;
      assert q * y <= x;
      assert limit * y == (B16 + g) * (B16 - g) == B16 * B16 - g * g;
      MulMono(limit, q, y);
    }
  }

  /** `b` is the power of two with b^2 <= x < 4*b^2. */
  predicate IsScale(x: nat, b: nat) {
    (0 < b <= 0x4000 || b == 0x8000) && b * b <= x < 4 * (b * b)
  }

  /** Half the bit width picks the power of four under x. */
  lemma ScaleOf(x: nat)
    requires 0 < x < B32
    ensures IsScale(x, U32(Pow2((BitWidth(x) - 1) / 2)))
  {
    var n := BitWidth(x) - 1;
    var k := n / 2;
    var b, p := Pow2(k), Pow2(2 * k);
    BitWidthWithin(x);
    Pow2Add(k, k);
    hide BitWidth, U32;
    DoubleTwice(2 * k);
    hide Pow2;
    assert n == 2 * k || n == 2 * k + 1;
    assert p <= x < 4 * p && p == b * b;
    ScaleValues(k);
  }

  lemma DoubleTwice(n: nat)
    ensures Pow2(n + 1) == 2 * Pow2(n) && Pow2(n + 2) == 4 * Pow2(n)
  {
    assert Pow2(n + 2) == 2 * Pow2(n + 1);
  }

  lemma BitWidthWithin(x: nat)
    requires x < B32
    ensures BitWidth(x) <= 32
  {
    Pow2At16();
    BitWidthBound(x, 32);
  }

  lemma ScaleValues(k: nat)
    requires k <= 15
    ensures U32(Pow2(k)) == Pow2(k)
    ensures Pow2(k) <= 0x4000 || Pow2(k) == 0x8000
  {
    Pow2At16();
    assert Pow2(15) == 2 * Pow2(14);
    if k < 15 {
      Pow2Monotone(k, 14);
    }
  }

  /**
   * `fast_sqrt`: every operation is on 32-bit unsigned values. The result is the floor square
   * root of every 32-bit input except the largest, for which it is 0.
   */
  method FastSqrt(x: nat) returns (r: nat)
    requires x < B32
    ensures r < B16
    ensures IsRoot(x, r) <==> x != 0xFFFF_FFFF
    ensures x == 0xFFFF_FFFF ==> r == 0
  {
    if x > 0 {
      var yLog2 := (BitWidth(x) - 1) / 2;
      ScaleOf(x);
      var y := U32(Pow2(yLog2));
      r := ChordRoot(x, y);
    } else {
      r := 0;
    }
  }

  /** The body shared by `fast_sqrt` and `fast_sqrt3`; `b` is the initial `1 << y_log2`. */
  method ChordRoot(x: nat, b: nat) returns (r: nat)
    requires 0 < x < B32 && IsScale(x, b)
    ensures r < B16
    ensures IsRoot(x, r) <==> x != 0xFFFF_FFFF
    ensures x == 0xFFFF_FFFF ==> r == 0
  {
    ghost var s := RootExists(x);
    FirstStepFits(x, b);
    TwoStepsSuffice(x, b, s);
    RootBound(x, s);
    var y := b;
    ChordExact(x, b);
    var diff := U32(x - U32(y * y));
    y := U32(y + diff / 3 / b);
    StepUp(x, y);
    y := U32(y + U32(x / y - y) / 2);
    ghost var y1 := y;
    FirstTest(x, y, s);
    if x < U32(y * y) {
      StepDown(x, y);
      y := U32(y + U32(x / y - y) / 2);
      SecondTest(x, y1, s, y);
      y := U32(y - AsBit(x < U32(y * y)));
    }
    r := y % B16;
    Conclude(x, s, r);
  }

  lemma Conclude(x: nat, s: nat, r: nat)
    requires x < B32 && IsRoot(x, s)
    requires r == if x == B32 - 1 then 0 else s
    ensures IsRoot(x, r) <==> x != B32 - 1
  {
    if IsRoot(x, r) {
      RootUnique(x, r, s);
    }
  }

  /** The interpolation does not wrap. */
  lemma ChordExact(x: nat, b: nat)
    requires 0 < b <= 0x8000 && b * b <= x < B32
    requires Chord(x, b) < B16
    ensures U32(b + U32(x - U32(b * b)) / 3 / b) == Chord(x, b)
  {
    U32Exact(b * b);
    U32Exact(x - b * b);
    U32Exact(Chord(x, b));
    hide U32;
  }

  /** What the first comparison decides. */
  lemma FirstTest(x: nat, y: nat, s: nat)
    requires x < B32 && IsRoot(x, s) && s <= y && 0 < y
    requires if x == B32 - 1 then y == B16 else y < B16
    ensures x < U32(y * y) <==> (x < B32 - 1 && s < y)
    ensures x == B32 - 1 ==> s == B16 - 1
    ensures if x < U32(y * y) then x / y < y else y % B16 == if x == B32 - 1 then 0 else s
  {
    if x == B32 - 1 {
      assert y * y == B32;
      RootUnique(x, s, B16 - 1);
    } else {
      SquareMono(y, B16 - 1);
      SquareMono(y, s);
      SquareMono(s + 1, y);
      NoWrapSquare(y);
      if s < y {
        QuotientUnder(x, y);
      }
    }
  }

  lemma NoWrapSquare(y: nat)
    requires y * y < B32
    ensures U32(y * y) == y * y
  {
  }

  lemma QuotientUnder(x: nat, y: nat)
    requires 0 < y && x < y * y
    ensures x / y < y
  {
    assert x / y * y <= x;
    MulMono(y, x / y, y);
  }

  /** The last correction, on a value that still carries the 2^31. */
  lemma SecondTest(x: nat, y: nat, s: nat, z: nat)
    requires x < B32 - 1 && IsRoot(x, s) && s < y < B16
    requires s <= Heron(x, y) <= s + 1 && z == 0x8000_0000 + Heron(x, y)
    ensures U32(z - AsBit(x < U32(z * z))) % B16 == s
  {
    hide Heron, U32;
    var t := Heron(x, y);
    SquareForgetsTopBit(t);
    assert x < U32(z * z) <==> t == s + 1 by { TestAtRoot(x, s, t); }
    DropTopBit(s);
  }

  lemma TestAtRoot(x: nat, s: nat, t: nat)
    requires IsRoot(x, s) && s <= t <= s + 1
    ensures x < t * t <==> t == s + 1
  {
  }

  lemma DropTopBit(s: nat)
    requires s < B16
    ensures U32(0x8000_0000 + s) % B16 == s
  {
    assert 0x8000_0000 + s == 0x8000 * B16 + s;
  }
}
