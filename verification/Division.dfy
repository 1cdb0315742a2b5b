/** 64-bit signed division on a machine whose DIV divides 64 bits by 32. */
module Division {
  import opened Arith

  /** Two's complement reading of 64 bits. */
  function S64(x: int): (r: int)
    ensures -0x8000_0000_0000_0000 <= r < 0x8000_0000_0000_0000
  {
    if U64(x) < 0x8000_0000_0000_0000 then U64(x) else U64(x) - B64
  }

  predicate Int64(x: int) {
    -0x8000_0000_0000_0000 <= x < 0x8000_0000_0000_0000
  }

  function Magnitude(x: int): nat {
    if x < 0 then -x else x
  }

  /** Division that truncates toward zero. */
  function Truncated(a: int, b: int): int
    requires b != 0
  {
    var q := Magnitude(a) / Magnitude(b);
    if (a < 0) != (b < 0) then -q else q
  }

  /** The high and low words of a `LargeUInt64`. */
  function High(x: nat): nat {
    x / B32
  }

  function Low(x: nat): nat {
    x % B32
  }

  /**
   * The DIV instruction: it faults on a zero divisor and when the quotient needs more than 32 bits,
   * so both are preconditions here.
   */
  method Div(dividend: nat, divisor: nat) returns (quotient: nat)
    requires 0 < divisor < B32 && High(dividend) < divisor
    ensures quotient == dividend / divisor && quotient < B32
  {
    QuotientFits(dividend, divisor);
    quotient := dividend / divisor;
  }

  lemma QuotientFits(x: nat, d: nat)
    requires 0 < d && High(x) < d
    ensures 0 <= x / d < B32
  {
    assert x < d * B32;
    MulMono(B32, x / d, d);
    assert x / d * d <= x;
  }

  /** A divisor of one word: two DIVs, the remainder of the first feeding the second. */
  method DivideByWord(a: nat, b: nat) returns (q: nat)
    requires a < B64 && 0 < b < B32
    ensures q == a / b
  {
    hide High, Low;
    SecondDiv(a, b);
    var high := High(a) / b;
    var rest := High(a) % b * B32 + Low(a);
    var low := Div(rest, b);
    q := high * B32 + low;
  }

  lemma SecondDiv(a: nat, b: nat)
    requires 0 < b < B32
    ensures var rest := High(a) % b * B32 + Low(a);
            High(rest) < b && a / b == High(a) / b * B32 + rest / b
  {
    var h, l := High(a), Low(a);
    var q, r := h / b, h % b;
    var rest := r * B32 + l;
    assert h == b * q + r;
    assert High(rest) == r;
    var t, u := rest / b, rest % b;
    assert rest == b * t + u;
    assert a == h * B32 + l == b * q * B32 + b * t + u;
    assert b * q * B32 + b * t == b * (q * B32 + t);
    assert a == (q * B32 + t) * b + u;
    ModUnique(a, q * B32 + t, u, b);
  }

  /** Repeated one-bit shifts until the divisor is a single word with its top bit set. */
  method Normalise(a: nat, b: nat) returns (sa: nat, sb: nat, ghost n: nat)
    requires a < B64 && B32 <= b < B64
    ensures sa == a / Pow2(n) && sb == b / Pow2(n)
    ensures n >= 1 && 0x8000_0000 <= sb < B32
  {
    sa, sb := a / 2, b / 2;
    n := 1;
    ShiftOnce(a, 0);
    ShiftOnce(b, 0);
    while High(sb) != 0
      invariant n >= 1 && sa == a / Pow2(n) && sb == b / Pow2(n) && 0x8000_0000 <= sb
      decreases sb
    {
      ShiftOnce(a, n);
      ShiftOnce(b, n);
      sa, sb := sa / 2, sb / 2;
      n := n + 1;
    }
  }

  lemma ShiftOnce(x: nat, n: nat)
    ensures x / Pow2(n) / 2 == x / Pow2(n + 1)
    ensures x / Pow2(0) == x
  {
    var p := Pow2(n);
    var y := x / p;
    var h := y / 2;
    assert Pow2(n + 1) == 2 * p;
    hide Pow2;
    var r := x - p * y;
    assert 0 <= r < p;
    var e := y - 2 * h;
    HalvedQuotient(x, p, y, h, e, r);
  }

  lemma HalvedQuotient(x: nat, p: nat, y: nat, h: nat, e: int, r: int)
    requires p > 0 && x == p * y + r && 0 <= r < p && y == 2 * h + e && 0 <= e <= 1
    ensures x / (2 * p) == h
  {
    assert p * y == h * (2 * p) + e * p;
    ModUnique(x, h, e * p + r, 2 * p);
  }

  /** Dividing both operands by the same power of two gives the true quotient or one more. */
  lemma EstimateWithinOne(a: nat, b: nat, p: nat)
    requires p > 0 && 0x8000_0000 <= b / p && a <= 0x8000_0000_0000_0000 && b >= B32
    ensures a / b <= (a / p) / (b / p) <= a / b + 1
  {
    QuotientBounds(a, p);
    QuotientBounds(b, p);
    QuotientBounds(a, b);
    LowerEstimate(a, b, p, a / p, b / p, a / b);
    UpperEstimate(a, b, p, a / p, b / p, a / b);
  }

  lemma QuotientBounds(x: nat, d: nat)
    requires d > 0
    ensures x / d * d <= x < (x / d + 1) * d && x / d >= 0
  {
    var q, r := x / d, x % d;
    assert x == q * d + r && 0 <= r < d;
    assert (q + 1) * d == q * d + d;
  }

  lemma LowerEstimate(a: nat, b: nat, p: nat, sa: nat, sb: nat, q: nat)
    requires p > 0 && sb > 0 && a < (sa + 1) * p && sb * p <= b && q * b <= a
    ensures q <= sa / sb
  {
    MulMono(sb * p, b, q);
    assert sb * p * q == (q * sb) * p && b * q == q * b;
    MulMono(sa + 1, q * sb, p);
    assert q * sb <= sa;
    QuotientAtLeast(sa, sb, q);
  }

  lemma QuotientAtLeast(x: nat, d: nat, q: nat)
    requires d > 0 && q * d <= x
    ensures q <= x / d
  {
    assert x < (x / d + 1) * d;
    MulMono(x / d + 1, q, d);
  }

  lemma QuotientAtMost(x: nat, d: nat, q: nat)
    requires d > 0 && x < (q + 1) * d
    ensures x / d <= q
  {
    assert x / d * d <= x;
    MulMono(q + 1, x / d, d);
  }

  lemma UpperEstimate(a: nat, b: nat, p: nat, sa: nat, sb: nat, q: nat)
    requires p > 0 && 0x8000_0000 <= sb && sa * p <= a && b < (sb + 1) * p
    requires a < (q + 1) * b && q * b <= a <= 0x8000_0000_0000_0000 && b >= B32
    ensures sa / sb <= q + 1
  {
    // sa < (q + 1) * (sb + 1), and the excess q + 1 - sb is at most 1 by the sizes of a and b
    MulMono(b, (sb + 1) * p, q + 1);
    assert (q + 1) * b == b * (q + 1);
    assert ((sb + 1) * p) * (q + 1) == ((q + 1) * (sb + 1)) * p;
    MulMono((q + 1) * (sb + 1), sa, p);
    assert sa < (q + 1) * (sb + 1);
    MulMono(B32, b, q);
    assert B32 * q <= a by { assert b * q == q * b; }
    assert q <= 0x8000_0000;
    assert (q + 1) * (sb + 1) == (q + 1) * sb + q + 1;
    assert (q + 2) * sb == (q + 1) * sb + sb;
    QuotientAtMost(sa, sb, q + 1);
  }

  /** A divisor of two words: one DIV on shifted operands, corrected by a word-by-word comparison. */
  method DivideByTwoWords(a: nat, b: nat) returns (q: nat)
    requires a <= 0x8000_0000_0000_0000 && B32 <= b <= 0x8000_0000_0000_0000
    ensures q == a / b
  {
    hide High, Low, U32, Pow2;
    var sa, sb, n := Normalise(a, b);
    EstimateFits(a, b, sa, sb, n);
    q := Div(sa, sb);
    var c := U32(High(b) * q);
    var d := Low(b) * q;
    var e := U32(High(d) + c);
    ProductByWords(a, b, q);
    Corrected(a, b, q);
    if (e < High(d) || e > High(a)) || !(e < High(a) || Low(d) <= Low(a)) {
      q := U32(q - 1);
    }
  }

  /** The same with one 64-bit comparison, whose product never wraps. */
  method DivideByTwoWordsCompare(a: nat, b: nat) returns (q: nat)
    requires a <= 0x8000_0000_0000_0000 && B32 <= b <= 0x8000_0000_0000_0000
    ensures q == a / b
  {
    hide High, Low, U32, U64, Pow2;
    var sa, sb, n := Normalise(a, b);
    EstimateFits(a, b, sa, sb, n);
    q := Div(sa, sb);
    Corrected(a, b, q);
    q := U32(q - (if U64(b * q) > a then 1 else 0));
  }

  /** Two's complement negation of a 64-bit quotient. */
  function Negated(q: int): int {
    S64(U64(-q))
  }

  /** `alldiv_msvc` is truncated signed division for every nonzero divisor. */
  method AllDiv(paramA: int, paramB: int) returns (r: int)
    requires Int64(paramA) && Int64(paramB) && paramB != 0
    ensures r == S64(Truncated(paramA, paramB))
  {
    hide U64, S64, Truncated, Magnitude, Negated;
    MagnitudeOf(paramA);
    MagnitudeOf(paramB);
    var a, b := U64(paramA), U64(paramB);
    if paramA < 0 {
      a := U64(-paramA);
    }
    if paramB < 0 {
      b := U64(-paramB);
    }
    var q;
    if High(b) == 0 {
      q := DivideByWord(a, b);
    } else {
      q := DivideByTwoWords(a, b);
    }
    ApplySign(paramA, paramB, q);
    r := if (paramA < 0) != (paramB < 0) then Negated(q) else S64(q);
  }

  /** `alldiv_msvc_fake_reg_test`: signs by mask, and the comparing correction. */
  method AllDivCompare(paramA: int, paramB: int) returns (r: int)
    requires Int64(paramA) && Int64(paramB) && paramB != 0
    ensures r == S64(Truncated(paramA, paramB))
  {
    hide U64, S64, Truncated, Magnitude, Negated;
    MagnitudeOf(paramA);
    MagnitudeOf(paramB);
    var a := Abs(U64(paramA));
    var b := Abs(U64(paramB));
    var q;
    if High(b) == 0 {
      q := DivideByWord(a, b);
    } else {
      q := DivideByTwoWordsCompare(a, b);
    }
    ApplySign(paramA, paramB, q);
    r := if (paramA < 0) != (paramB < 0) then Negated(q) else S64(q);
  }

  /** The mask form of the absolute value: complement every word and subtract the mask. */
  method Abs(x: nat) returns (r: nat)
    requires x < B64
    ensures r == if x < 0x8000_0000_0000_0000 then x else B64 - x
  {
    var low, high := Low(x), High(x);
    if high >= 0x8000_0000 {
      low, high := B32 - 1 - low, B32 - 1 - high;
      var borrow := if low < B32 - 1 then 1 else 0;
      low := U32(low - (B32 - 1));
      high := U32(high - (B32 - 1) - borrow);
    }
    r := high * B32 + low;
  }

  lemma MagnitudeOf(x: int)
    requires Int64(x)
    ensures Magnitude(x) <= 0x8000_0000_0000_0000 && (x != 0 ==> Magnitude(x) > 0)
    ensures x < 0 ==> U64(-x) == Magnitude(x) && U64(x) == B64 - Magnitude(x) >= 0x8000_0000_0000_0000
    ensures x >= 0 ==> U64(x) == Magnitude(x) < 0x8000_0000_0000_0000
  {
  }

  lemma EstimateFits(a: nat, b: nat, sa: nat, sb: nat, n: nat)
    requires a <= 0x8000_0000_0000_0000 && b >= B32 && b <= 0x8000_0000_0000_0000
    requires n >= 1 && sa == a / Pow2(n) && sb == b / Pow2(n) && 0x8000_0000 <= sb < B32
    ensures High(sa) < sb
    ensures a / b <= sa / sb <= a / b + 1
    ensures 0 <= b * (sa / sb) < B64
  {
    Pow2Monotone(1, n);
    assert Pow2(1) == 2;
    EstimateBounds(a, b, Pow2(n));
  }

  lemma EstimateBounds(a: nat, b: nat, p: nat)
    requires a <= 0x8000_0000_0000_0000 && B32 <= b <= 0x8000_0000_0000_0000
    requires p >= 2 && 0x8000_0000 <= b / p < B32
    ensures High(a / p) < b / p
    ensures a / b <= (a / p) / (b / p) <= a / b + 1
    ensures 0 <= b * ((a / p) / (b / p)) < B64
  {
    hide High;
    EstimateWithinOne(a, b, p);
    HalfOrLess(a, p);
    HighOfSmall(a / p);
    FitsFrom(a, b, a / p, b / p);
  }

  lemma FitsFrom(a: nat, b: nat, sa: nat, sb: nat)
    requires a <= 0x8000_0000_0000_0000 && 0 < b <= 0x8000_0000_0000_0000 && sb > 0
    requires a / b <= sa / sb <= a / b + 1 && (a == b ==> sa == sb)
    ensures 0 <= b * (sa / sb) < B64
  {
    if a == b {
      QuotientOfEqual(a, sa);
    }
    ProductFits(a, b, sa / sb);
  }

  lemma HighOfSmall(x: nat)
    requires x <= 0x4000_0000_0000_0000
    ensures High(x) < 0x8000_0000
  {
  }

  lemma QuotientOfEqual(a: nat, sa: nat)
    requires a > 0 && sa > 0
    ensures a / a == 1 && sa / sa == 1
  {
    ModUnique(a, 1, 0, a);
    ModUnique(sa, 1, 0, sa);
  }

  /** The product of the divisor and the estimate never needs more than 64 bits. */
  lemma ProductFits(a: nat, b: nat, q: nat)
    requires 0 < b <= 0x8000_0000_0000_0000 && a <= 0x8000_0000_0000_0000
    requires a / b <= q <= a / b + 1 && (a == b ==> q == 1)
    ensures 0 <= b * q < B64
  {
    QuotientBounds(a, b);
    var k := a / b;
    assert b * k == k * b && b * (k + 1) == k * b + b;
    if k * b == 0x8000_0000_0000_0000 && b == 0x8000_0000_0000_0000 {
      assert a == b;
    }
  }

  /** The word-by-word test is the comparison of the whole product with the dividend. */
  lemma ProductByWords(a: nat, b: nat, q: nat)
    requires a < B64 && b < B64 && q < B32 && b * q < B64
    ensures var c := U32(High(b) * q); var d := Low(b) * q; var e := U32(High(d) + c);
            ((e < High(d) || e > High(a)) || !(e < High(a) || Low(d) <= Low(a))) <==> b * q > a
  {
    var h, l := High(b), Low(b);
    var d := l * q;
    SplitProduct(b, h, l, q);
    assert h * q >= 0 && d >= 0;
    WordsCompare(a, h * q, d, b * q);
  }

  lemma SplitProduct(b: int, h: int, l: int, q: int)
    requires b == h * B32 + l
    ensures b * q == (h * q) * B32 + l * q
  {
  }

  lemma WordsCompare(a: nat, hq: nat, d: nat, product: nat)
    requires product == hq * B32 + d && product < B64 && a < B64
    ensures var c := U32(hq); var e := U32(High(d) + c);
            ((e < High(d) || e > High(a)) || !(e < High(a) || Low(d) <= Low(a))) <==> product > a
  {
    assert d == High(d) * B32 + Low(d);
    assert product == (High(d) + hq) * B32 + Low(d);
    assert U32(hq) == hq && U32(High(d) + hq) == High(d) + hq;
  }

  /** Taking one off exactly when the product is too large leaves the true quotient. */
  lemma Corrected(a: nat, b: nat, q: nat)
    requires b > 0 && q < B32 && a / b <= q <= a / b + 1 && 0 <= b * q < B64
    ensures b * q > a ==> U32(q - 1) == a / b
    ensures b * q <= a ==> q == a / b
    ensures U64(b * q) == b * q && U32(q) == q
  {
    QuotientBounds(a, b);
    var k := a / b;
    assert b * k == k * b && b * (k + 1) == (k + 1) * b;
  }

  lemma ApplySign(paramA: int, paramB: int, q: nat)
    requires paramB != 0 && q == Magnitude(paramA) / Magnitude(paramB)
    ensures if (paramA < 0) != (paramB < 0) then Negated(q) == S64(Truncated(paramA, paramB))
            else S64(q) == S64(Truncated(paramA, paramB))
  {
    var z: int := q;
    Wrap64(-z);
  }

  lemma Wrap64(x: int)
    ensures S64(U64(x)) == S64(x)
  {
  }

  lemma HalfOrLess(a: nat, p: nat)
    requires p >= 2
    ensures a / p <= a / 2
  {
    MulMono(2, p, a / 2 + 1);
    assert p * (a / 2 + 1) == (a / 2 + 1) * p;
    QuotientAtMost(a, p, a / 2);
  }

  /** What truncation means: a remainder smaller than the divisor, with the sign of the dividend. */
  lemma TruncatedMeaning(a: int, b: int)
    requires b != 0
    ensures var r := a - b * Truncated(a, b);
            Magnitude(r) < Magnitude(b) && (r == 0 || (r < 0) == (a < 0))
  {
    var m, d := Magnitude(a), Magnitude(b);
    QuotientBounds(m, d);
    ProductSign(b, m / d, d);
    NextMultiple(m / d, d);
  }

  lemma ProductSign(b: int, q: int, d: int)
    requires d == Magnitude(b)
    ensures b * q == if b < 0 then -(q * d) else q * d
    ensures b * -q == if b < 0 then q * d else -(q * d)
  {
  }

  lemma NextMultiple(q: int, d: int)
    ensures (q + 1) * d == q * d + d
  {
  }

  /** The 64-bit result is the true quotient except where that quotient is 2^63. */
  lemma OnlyOneWraps(a: int, b: int)
    requires Int64(a) && Int64(b) && b != 0
    ensures S64(Truncated(a, b)) == Truncated(a, b) <==> !(a == -0x8000_0000_0000_0000 && b == -1)
  {
    var m, d := Magnitude(a), Magnitude(b);
    QuotientSize(m, d);
    WrapsOutside(Truncated(a, b));
  }

  lemma QuotientSize(m: nat, d: nat)
    requires d > 0
    ensures d == 1 ==> m / d == m
    ensures d >= 2 ==> 0 <= m / d <= m / 2
    ensures m / d >= 0
  {
    if d >= 2 {
      HalfOrLess(m, d);
    }
    QuotientBounds(m, d);
  }

  lemma WrapsOutside(x: int)
    ensures S64(x) == x <==> Int64(x)
  {
  }
}
