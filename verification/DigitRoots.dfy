/** Square roots found one odd number or one binary digit at a time. */
module DigitRoots {
  import opened Arith
  import opened Roots

  /** Subtract 1, 3, 5, ... until the value turns negative; the result is `acc >> 1`. */
  method CountOdds(s: int) returns (n: nat)
    requires Int32(s)
    ensures if s < 0 then n == 0 else n > 0 && IsRoot(s, n - 1)
    ensures n < B16
  {
    hide S32, U32, IsRoot;
    var error, acc := s, 1;
    n := 0;
    while error >= 0
      invariant acc == 2 * n + 1 && 0 <= n <= 46341
      invariant error == s - n * n && Int32(error)
      invariant if n > 0 then error >= -acc && s >= (n - 1) * (n - 1) else error == s
      decreases error
    {
      OddStep(s, n, error, acc);
      error := S32(error - acc);
      acc := U32(acc + 2);
      n := n + 1;
    }
    OddsEnd(s, n, error);
    assert n == acc / 2;
  }

  lemma OddStep(s: int, n: nat, error: int, acc: int)
    requires Int32(s) && error == s - n * n && error >= 0 && acc == 2 * n + 1 && n <= 46341
    ensures n <= 46340 && s - (n + 1) * (n + 1) == error - acc
    ensures S32(error - acc) == error - acc && U32(acc + 2) == acc + 2
  {
    SquareMono(46341, n);
    assert (n + 1) * (n + 1) == n * n + acc;
  }

  lemma OddsEnd(s: int, n: nat, error: int)
    requires Int32(s) && error == s - n * n && error < 0
    requires if n > 0 then s >= (n - 1) * (n - 1) else error == s
    ensures if s < 0 then n == 0 else n > 0 && IsRoot(s, n - 1)
  {
    if n > 0 {
      assert (n - 1) * (n - 1) >= 0;
    }
  }

  /** The test after the loop, as the source writes it. */
  predicate Excess(n: nat) {
    U32(U32(n * n) - n + 1) > 2
  }

  /** `old_isqrt` has no guard for 0, and 0 is exactly where it is wrong. */
  method OldIsqrt(s: int) returns (r: int)
    requires Int32(s)
    ensures s >= 0 ==> (IsRoot(s, r) <==> s != 0)
    ensures s <= 0 ==> r == if s == 0 then 1 else 0
  {
    hide Excess, U32, IsRoot;
    var n := CountOdds(s);
    ExcessZero();
    if s >= 0 {
      OddsTest(s, n);
    }
    if Excess(n) {
      r := n - 1;
    } else {
      r := n;
    }
  }

  /** `old_isqrt3`: the guarded loop is right for every positive input. */
  method OldIsqrt3(s: int) returns (r: nat)
    requires Int32(s)
    ensures if s > 0 then IsRoot(s, r) else r == 0
  {
    hide U32, IsRoot, Excess;
    if s > 0 {
      var n := CountOdds(s);
      OddsTest(s, n);
      r := U32(n - AsBit(Excess(n))) % B16;
    } else {
      r := 0;
    }
  }

  /** The final test of the odd-number loops only fails to fire for the root of 0. */
  lemma OddsTest(s: int, n: nat)
    requires s >= 0 && 0 < n < B16 && IsRoot(s, n - 1)
    ensures Excess(n) <==> s > 0
    ensures s == 0 ==> n == 1 && !IsRoot(0, 1)
    ensures s > 0 ==> U32(n - AsBit(Excess(n))) % B16 == n - 1
  {
    SquareMono(n, B16 - 1);
    SquareMono(1, n - 1);
    if n >= 2 {
      MulMono(2, n, n);
    }
    ExcessExact(n, n * n);
  }

  lemma ExcessZero()
    ensures !Excess(0)
  {
  }

  lemma ExcessExact(n: nat, sq: nat)
    requires 0 < n < B16 && sq < B32 && sq == n * n && sq >= (if n >= 2 then 2 * n else 1)
    ensures Excess(n) <==> n >= 2
    ensures n >= 2 ==> U32(n - AsBit(Excess(n))) % B16 == n - 1
  {
    ExcessValue(n, sq);
    hide U32;
    assert Excess(n) <==> U32(U32(sq) - n + 1) > 2;
  }

  lemma ExcessValue(n: nat, sq: nat)
    requires 0 < n < B16 && sq < B32 && sq >= (if n >= 2 then 2 * n else 1)
    requires n == 1 ==> sq == 1
    ensures U32(sq) == sq && (U32(sq - n + 1) > 2 <==> n >= 2)
    ensures n >= 2 ==> U32(n - 1) % B16 == n - 1
  {
  }

  /** `fast_sqrt3`: the odd-number loop up to 120, the chord method above it. */
  method FastSqrt3(value: int) returns (r: nat)
    requires Int32(value)
    ensures if value > 0 then IsRoot(value, r) else r == 0
  {
    hide U32, IsRoot, Excess, BitWidth, Pow2, IsScale;
    if value > 120 {
      var yLog2 := (BitWidth(value) - 1) / 2;
      ScaleOf(value);
      r := ChordRoot(value, U32(Pow2(yLog2)));
    } else if value > 0 {
      var y := CountOdds(value);
      OddsTest(value, y);
      r := U32(y - AsBit(Excess(y))) % B16;
    } else {
      r := 0;
    }
  }

  /** `r` is the square root of `s` rounded to the nearest integer; a tie cannot happen. */
  predicate IsNearest(s: int, r: int) {
    0 <= r && 4 * s < (2 * r + 1) * (2 * r + 1) && (r > 0 ==> (2 * r - 1) * (2 * r - 1) < 4 * s)
  }

  lemma NearestUnique(s: nat, r: int, t: int)
    requires IsNearest(s, r) && IsNearest(s, t)
    ensures r == t
  {
    if r > 0 {
      SquareMono(2 * t + 1, 2 * r - 1);
    }
    if t > 0 {
      SquareMono(2 * r + 1, 2 * t - 1);
    }
  }

  /** Rounding up happens exactly when s > p^2 + p, p being the floor root. */
  lemma RoundToNearest(s: nat, p: nat)
    requires IsRoot(s, p)
    ensures IsNearest(s, p + AsBit(s - p * p > p))
  {
    assert (2 * p + 1) * (2 * p + 1) == 4 * (p * p) + 4 * p + 1;
    assert (p + 1) * (p + 1) == p * p + 2 * p + 1;
    if s - p * p > p {
      var r := p + 1;
      assert 2 * r - 1 == 2 * p + 1;
      assert (2 * r + 1) * (2 * r + 1) == 4 * (p * p) + 12 * p + 9;
    } else {
      assert (2 * p - 1) * (2 * p - 1) == 4 * (p * p) - 4 * p + 1;
    }
  }

  /**
   * What the digit loops keep: p holds the digits found so far, c is twice the weight of the
   * digit tested next, and the two working variables are p*c and s - p^2.
   */
  ghost predicate Digits(s: nat, p: nat, j: nat, root: int, error: int, d: int) {
    var c := Pow2(j);
    && root == p * c && error == s - p * p
    && p * p <= s < (p + c) * (p + c)
    && p + c <= B16 && (p == 0 || c <= p)
    && d == if j == 0 then 0 else Pow2(2 * (j - 1))
  }

  /** The start: no digit found, d the largest power of four not above s. */
  lemma DigitsStart(s: nat, k: nat)
    requires 0 < s < B32 && k <= 15 && s < 4 * Pow2(2 * k)
    ensures Digits(s, 0, k + 1, 0, s, Pow2(2 * k))
  {
    hide Pow2;
    Pow2Add(k + 1, k + 1);
    Pow2At16();
    Pow2Monotone(k + 1, 16);
    DoubleTwice(2 * k);
  }

  /** One digit: compare with root + d = (p + b)^2 - p^2 and keep or drop the digit b. */
  lemma DigitStep(s: nat, p: nat, j: nat, root: int, error: int, d: int)
    requires s < B32 && Digits(s, p, j, root, error, d) && d != 0
    ensures j > 0 && 0 <= root && 0 < d && root + d < B32 && 0 <= error < B32
    ensures if error >= root + d
            then Digits(s, p + Pow2(j - 1), j - 1, root / 2 + d, error - (root + d), d / 4)
            else Digits(s, p, j - 1, root / 2, error, d / 4)
  {
    var b := Pow2(j - 1);
    Pow2Add(j - 1, j - 1);
    assert Pow2(j) == 2 * b && d == b * b;
    StepAlgebra(p, b);
    hide Pow2;
    if j > 1 {
      DoubleTwice(2 * (j - 2));
    }
  }

  /** The same step as the machine performs it: nothing wraps, signed or unsigned. */
  lemma MachineStep(s: nat, p: nat, j: nat, root: int, error: int, d: int)
    requires s < B32 && Digits(s, p, j, root, error, d) && d != 0
    ensures j > 0
    ensures if error >= U32(root + d)
            then Digits(s, p + Pow2(j - 1), j - 1, U32(root / 2 + d), U32(error - U32(root + d)), d / 4)
            else Digits(s, p, j - 1, root / 2, error, d / 4)
    ensures s < 0x8000_0000 && error >= U32(root + d)
            ==> S32(root / 2 + d) == U32(root / 2 + d) && S32(error - U32(root + d)) == U32(error - U32(root + d))
  {
    hide Digits;
    DigitStep(s, p, j, root, error, d);
    NoWrap(root + d);
    if error >= root + d {
      VariablesBounded(s, p + Pow2(j - 1), j - 1, root / 2 + d, error - (root + d), d / 4);
      NoWrap(root / 2 + d);
      NoWrap(error - (root + d));
    }
  }

  lemma NoWrap(x: int)
    requires 0 <= x < B32
    ensures U32(x) == x
    ensures x < 0x8000_0000 ==> S32(x) == x
  {
  }

  lemma VariablesBounded(s: nat, p: nat, j: nat, root: int, error: int, d: int)
    requires Digits(s, p, j, root, error, d)
    ensures 0 <= root <= s && 0 <= error <= s
  {
    MulMono(Pow2(j), p, p);
    assert p * Pow2(j) == Pow2(j) * p >= 0;
    assert p * p >= 0;
  }

  lemma StepAlgebra(p: nat, b: nat)
    requires 0 < b && p + 2 * b <= B16
    ensures p * (2 * b) == 2 * (p * b) && p * b >= 0 && b * b > 0
    ensures (p + b) * (p + b) == p * p + 2 * (p * b) + b * b < B32
    ensures (p + b) * b == p * b + b * b
    ensures (p + 2 * b) * (p + 2 * b) == ((p + b) + b) * ((p + b) + b)
  {
    SquareMono(p + b, B16 - 1);
  }

  /** `d` is the largest power of four not above s. */
  predicate Top(s: int, k: nat, d: int) {
    k <= 15 && s < 4 * d && d == Pow2(2 * k)
  }

  /** Dividing by four steps down to the next power of four; 1 is never above s. */
  lemma TopDown(s: int, k: nat, d: int)
    requires 0 < s < d && Top(s, k, d)
    ensures k > 0 && Top(s, k - 1, d / 4)
  {
    if k > 0 {
      DoubleTwice(2 * (k - 1));
    }
  }

  lemma TopStarts(s: int, k: nat, d: int)
    requires 0 < s < B32 && Top(s, k, d)
    ensures Digits(s, 0, k + 1, 0, s, d)
  {
    DigitsStart(s, k);
  }

  lemma TopStart()
    ensures forall s :: Int32(s) ==> Top(s, 15, 0x4000_0000)
  {
    Pow2At16();
    Pow2Add(15, 15);
  }

  /** `isqrt` rounds to nearest on every positive int32. */
  method Isqrt(s: int) returns (r: int)
    requires Int32(s)
    ensures if s > 0 then IsNearest(s, r) else r == 0
  {
    hide Digits, IsNearest, IsRoot, Top, U32, S32, Pow2;
    if s <= 0 {
      return 0;
    }
    var error, root := s, 0;
    ghost var k: nat := 15;
    var d := 0x4000_0000;
    TopStart();
    while d > s
      invariant Top(s, k, d)
      decreases k
    {
      TopDown(s, k, d);
      d := d / 4;
      k := k - 1;
    }
    TopStarts(s, k, d);
    ghost var p: nat, j: nat := 0, k + 1;
    while d != 0
      invariant Digits(s, p, j, root, error, d)
      decreases j
    {
      MachineStep(s, p, j, root, error, d);
      if error >= U32(root + d) {
        error := S32(error - U32(root + d));
        root := S32(root / 2 + d);
        p := p + Pow2(j - 1);
      } else {
        root := root / 2;
      }
      d := d / 4;
      j := j - 1;
    }
    LastDigit(s, p, j, root, error);
    r := if error > root then root + 1 else root;
  }

  /** `isqrt2` rounds to nearest as long as the rounded root fits the 16-bit result. */
  method Isqrt2(s: nat) returns (r: nat)
    requires s < B32
    ensures r < B16
    ensures IsNearest(s, r) <==> s <= 0xFFFF_0000
    ensures s > 0xFFFF_0000 ==> r == 0
  {
    hide Digits, IsNearest, IsRoot, U32, BitWidth, Pow2;
    var root := 0;
    if s != 0 {
      var shiftCount := EvenPart(BitWidth(s) - 1);
      TopDigit(s);
      var d := U32(Pow2(shiftCount));
      root := RoundedRoot(s, d, shiftCount / 2);
      NearestIsNonzero(s);
    } else {
      ZeroNearest();
    }
    r := root % B16;
  }

  lemma NearestIsNonzero(s: nat)
    requires s > 0
    ensures !IsNearest(s, 0)
  {
  }

  /** Clearing the low bit, `n & ~1`. */
  function EvenPart(n: nat): (r: nat)
    ensures r % 2 == 0 && r <= n <= r + 1
  {
    n - n % 2
  }

  /** The digit loop of `isqrt2` and its final rounding. */
  method RoundedRoot(s: nat, start: nat, ghost k: nat) returns (root: nat)
    requires 0 < s < B32 && Digits(s, 0, k + 1, 0, s, start)
    ensures IsNearest(s, root) && root <= B16
    ensures root == B16 <==> s > 0xFFFF_0000
  {
    hide Digits, IsNearest, IsRoot, U32, Pow2;
    root := 0;
    var error, d := s, start;
    ghost var p: nat, j: nat := 0, k + 1;
    while d != 0
      invariant Digits(s, p, j, root, error, d)
      decreases j
    {
      MachineStep(s, p, j, root, error, d);
      var rootPd := U32(root + d);
      if error >= rootPd {
        root := U32(root / 2 + d);
        error := U32(error - rootPd);
        p := p + Pow2(j - 1);
      } else {
        root := root / 2;
      }
      d := d / 4;
      j := j - 1;
    }
    LastDigit(s, p, j, root, error);
    root := root + AsBit(error > root);
  }

  lemma ZeroNearest()
    ensures IsNearest(0, 0)
  {
  }

  lemma LastDigit(s: nat, p: nat, j: nat, root: int, error: int)
    requires 0 < s < B32 && Digits(s, p, j, root, error, 0)
    ensures root == p && 0 <= error < B32 && IsNearest(s, p + AsBit(error > root)) && !IsNearest(s, 0)
    ensures p + AsBit(error > root) <= B16
    ensures (p + AsBit(error > root) == B16) <==> s > 0xFFFF_0000
  {
    RoundToNearest(s, p);
    NearestFits(s, p);
  }

  lemma TopDigit(s: nat)
    requires 0 < s < B32
    ensures BitWidth(s) > 0
    ensures var e := EvenPart(BitWidth(s) - 1); Digits(s, 0, e / 2 + 1, 0, s, U32(Pow2(e)))
  {
    hide BitWidth, Pow2, U32, Digits;
    var e := EvenPart(BitWidth(s) - 1);
    var k := e / 2;
    BitWidthWithin(s);
    Pow2Monotone(BitWidth(s), 2 * k + 2);
    DoubleTwice(2 * k);
    Pow2Monotone(2 * k + 2, 32);
    Pow2At16();
    NoWrap(Pow2(2 * k));
    DigitsStart(s, k);
  }

  /** The rounded root of a 32-bit value leaves 16 bits exactly above 0xFFFF0000. */
  lemma NearestFits(s: nat, p: nat)
    requires 0 < s < B32 && IsRoot(s, p) && p < B16
    ensures (p + AsBit(s - p * p > p) == B16) <==> s > 0xFFFF_0000
    ensures !IsNearest(s, 0)
  {
    if p == B16 - 1 {
      assert p * p == 0xFFFE_0001;
    } else {
      SquareMono(p + 1, B16 - 1);
    }
  }
}
