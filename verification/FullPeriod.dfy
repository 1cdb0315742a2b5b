/**
 * Full period of an affine generator modulo a power of two: when the multiplier is 1 modulo 4 and
 * the increment is odd, the orbit of every state visits every residue once before it returns.
 */
module FullPeriod {
  import opened Arith

  /** 1 + a + ... + a^(n-1), by Horner's rule. */
  function Geometric(a: nat, n: nat): nat {
    if n == 0 then 0 else 1 + a * Geometric(a, n - 1)
  }

  /** The state after n steps of s -> a*s + c modulo m. */
  function Iterate(a: nat, c: nat, m: nat, s: nat, n: nat): nat
    requires m > 0
  {
    if n == 0 then s % m else (a * Iterate(a, c, m, s, n - 1) + c) % m
  }

  /** The same orbit without reduction. */
  function Orbit(a: nat, c: nat, s: nat, n: nat): nat {
    if n == 0 then s else a * Orbit(a, c, s, n - 1) + c
  }

  lemma {:induction false} OrbitClosedForm(a: nat, c: nat, s: nat, n: nat)
    requires a > 0
    ensures Orbit(a, c, s, n) == s + Geometric(a, n) * ((a - 1) * s + c)
  {
    if n > 0 {
      OrbitClosedForm(a, c, s, n - 1);
      OrbitAlgebra(a, c, s, Geometric(a, n - 1), (a - 1) * s + c);
    }
  }

  lemma OrbitAlgebra(a: int, c: int, s: int, g: int, k: int)
    requires k == (a - 1) * s + c
    ensures a * (s + g * k) + c == s + (1 + a * g) * k
  {
    assert a * (s + g * k) == a * s + a * g * k;
    assert (1 + a * g) * k == k + a * g * k;
    assert (a - 1) * s == a * s - s;
  }

  lemma {:induction false} GeometricSum(a: nat, m: nat, n: nat)
    requires a > 0
    ensures var g, h := Geometric(a, m), Geometric(a, n);
            Geometric(a, m + n) == g + h + (a - 1) * (g * h)
  {
    if m > 0 {
      GeometricSum(a, m - 1, n);
      SumAlgebra(a, Geometric(a, m - 1), Geometric(a, n));
    }
  }

  lemma SumAlgebra(a: int, g: int, h: int)
    ensures 1 + a * (g + h + (a - 1) * (g * h)) == (1 + a * g) + h + (a - 1) * ((1 + a * g) * h)
  {
    assert (1 + a * g) * h == h + a * (g * h);
    assert (a - 1) * (h + a * (g * h)) == a * h - h + (a - 1) * (a * (g * h));
    assert a * ((a - 1) * (g * h)) == (a - 1) * (a * (g * h));
  }

  lemma {:induction false} GeometricParity(a: nat, n: nat)
    requires a % 2 == 1
    ensures Geometric(a, n) % 2 == n % 2
  {
    if n > 0 {
      hide Geometric;
      GeometricParity(a, n - 1);
      GeometricStep(a, n);
      ParityStep(a, Geometric(a, n - 1), Geometric(a, n), n);
    }
  }

  lemma ParityStep(a: nat, g: nat, h: nat, n: nat)
    requires a % 2 == 1 && h == 1 + a * g && n > 0 && g % 2 == (n - 1) % 2
    ensures h % 2 == n % 2
  {
    OddTimes(a, g);
  }

  lemma GeometricStep(a: nat, n: nat)
    requires n > 0
    ensures Geometric(a, n) == 1 + a * Geometric(a, n - 1)
  {
  }

  lemma OddTimes(a: int, g: int)
    requires a % 2 == 1
    ensures (1 + a * g) % 2 == (1 + g) % 2
  {
    ProductParity(a, g);
    OnePlus(a * g, g);
  }

  lemma OnePlus(p: int, g: int)
    requires p % 2 == g % 2
    ensures (1 + p) % 2 == (1 + g) % 2
  {
  }

  lemma ProductParity(a: int, b: int)
    ensures (a * b) % 2 == (a % 2) * (b % 2)
  {
    var p, q, r, t := a / 2, b / 2, a % 2, b % 2;
    ParityAlgebra(p, q, r, t);
    ModUnique(a * b, 2 * (p * q) + p * t + r * q, r * t, 2);
  }

  lemma ParityAlgebra(p: int, q: int, r: int, t: int)
    requires 0 <= r <= 1 && 0 <= t <= 1
    ensures (2 * p + r) * (2 * q + t) == 2 * (2 * (p * q) + p * t + r * q) + r * t
    ensures 0 <= r * t <= 1
  {
  }

  lemma EvenMultiple(v: int, m: nat)
    requires m > 0
    ensures (2 * v) % (2 * m) == 0 <==> v % m == 0
  {
    if v % m == 0 {
      assert v == m * (v / m);
      Multiple(2 * v, v / m, 2 * m);
    }
    if (2 * v) % (2 * m) == 0 {
      var q := 2 * v / (2 * m);
      assert 2 * v == 2 * m * q;
      Multiple(v, q, m);
    }
  }

  lemma Multiple(v: int, q: int, m: nat)
    requires m > 0 && v == m * q
    ensures v % m == 0
  {
    ModUnique(v, q, 0, m);
  }

  lemma OddNotMultiple(v: int, m: nat)
    requires v % 2 == 1 && m > 0
    ensures v % (2 * m) != 0
  {
    var q, r := v / (2 * m), v % (2 * m);
    assert v == 2 * m * q + r;
    assert 2 * m * q == 2 * (m * q);
  }

  /** An odd factor neither adds nor removes divisibility by a power of two. */
  lemma {:induction false} OddFactor(v: int, u: int, k: nat)
    requires u % 2 == 1
    ensures (v * u) % Pow2(k) == 0 <==> v % Pow2(k) == 0
    decreases k
  {
    ProductParity(v, u);
    if k > 0 {
      if v % 2 == 1 {
        OddNotMultiple(v, Pow2(k - 1));
        OddNotMultiple(v * u, Pow2(k - 1));
      } else {
        var w := v / 2;
        assert v * u == 2 * (w * u);
        assert Pow2(k) == 2 * Pow2(k - 1);
        hide Pow2;
        OddFactor(w, u, k - 1);
        EvenMultiple(w, Pow2(k - 1));
        EvenMultiple(w * u, Pow2(k - 1));
      }
    }
  }

  /** The geometric sum carries exactly the powers of two of its length. */
  lemma {:induction false} GeometricDivides(a: nat, n: nat, k: nat)
    requires a % 4 == 1
    ensures Geometric(a, n) % Pow2(k) == 0 <==> n % Pow2(k) == 0
    decreases k
  {
    if k > 0 {
      hide Geometric;
      if n % 2 == 1 {
        OddLength(a, n, k);
      } else {
        GeometricDivides(a, n / 2, k - 1);
        EvenMultiple(n / 2, Pow2(k - 1));
        EvenLength(a, n, n / 2, k);
      }
    }
  }

  lemma OddLength(a: nat, n: nat, k: nat)
    requires a % 4 == 1 && n % 2 == 1 && k > 0
    ensures Geometric(a, n) % Pow2(k) != 0 && n % Pow2(k) != 0
  {
    hide Geometric;
    GeometricParity(a, n);
    OddNotMultiple(n, Pow2(k - 1));
    OddNotMultiple(Geometric(a, n), Pow2(k - 1));
  }

  lemma EvenLength(a: nat, n: nat, m: nat, k: nat)
    requires a % 4 == 1 && n == 2 * m && k > 0
    ensures Geometric(a, n) % Pow2(k) == 0 <==> Geometric(a, m) % Pow2(k - 1) == 0
  {
    var g, b := Geometric(a, m), a / 4;
    var u := 1 + 2 * (b * g);
    var h := Pow2(k - 1);
    assert Pow2(k) == 2 * h;
    GeometricSum(a, m, m);
    assert m + m == n;
    hide Geometric, Pow2;
    DoubleAlgebra(a, b, g);
    OddFactor(g, u, k - 1);
    EvenMultiple(g * u, h);
  }

  lemma DoubleAlgebra(a: int, b: int, g: int)
    requires a == 4 * b + 1
    ensures g + g + (a - 1) * (g * g) == 2 * (g * (1 + 2 * (b * g)))
  {
    assert g * (1 + 2 * (b * g)) == g + 2 * (b * (g * g));
    assert (a - 1) * (g * g) == 4 * (b * (g * g));
  }

  lemma {:induction false} IterateIsOrbit(a: nat, c: nat, m: nat, s: nat, n: nat)
    requires m > 0
    ensures Iterate(a, c, m, s, n) == Orbit(a, c, s, n) % m
  {
    if n > 0 {
      IterateIsOrbit(a, c, m, s, n - 1);
      var x := Orbit(a, c, s, n - 1);
      StepReduces(a, c, m, x);
    }
  }

  /** Reducing before an affine step does not change the reduced result. */
  lemma StepReduces(a: nat, c: nat, m: nat, x: nat)
    requires m > 0
    ensures (a * (x % m) + c) % m == (a * x + c) % m
  {
    var q, r := x / m, x % m;
    assert x == m * q + r;
    assert a * x + c == a * r + c + m * (a * q) by {
      assert a * (m * q + r) == a * (m * q) + a * r;
      assert a * (m * q) == m * (a * q);
    }
    ModShift(a * r + c, a * q, m);
  }

  lemma ModShift(x: int, q: int, m: nat)
    requires m > 0
    ensures (x + m * q) % m == x % m
  {
    assert x == m * (x / m) + x % m;
    assert x + m * q == (x / m + q) * m + x % m;
    ModUnique(x + m * q, x / m + q, x % m, m);
  }

  lemma SameResidue(x: int, y: int, m: nat)
    requires m > 0
    ensures x % m == y % m <==> (x - y) % m == 0
  {
    if x % m == y % m {
      DifferenceOfEqual(x, y, m);
    }
    if (x - y) % m == 0 {
      EqualFromDifference(x, y, m);
    }
  }

  lemma DifferenceOfEqual(x: int, y: int, m: nat)
    requires m > 0 && x % m == y % m
    ensures (x - y) % m == 0
  {
    var p, q := x / m, y / m;
    assert x == m * p + x % m && y == m * q + y % m;
    assert m * (p - q) == m * p - m * q;
    Multiple(x - y, p - q, m);
  }

  lemma EqualFromDifference(x: int, y: int, m: nat)
    requires m > 0 && (x - y) % m == 0
    ensures x % m == y % m
  {
    var q := (x - y) / m;
    assert x - y == m * q;
    ModShift(y, q, m);
  }

  /** An orbit returns to its start after n steps exactly when 2^k divides n. */
  lemma FullPeriodTheorem(a: nat, c: nat, k: nat, s: nat, n: nat)
    requires a % 4 == 1 && c % 2 == 1
    ensures Iterate(a, c, Pow2(k), s, n) == s % Pow2(k) <==> n % Pow2(k) == 0
  {
    hide Iterate, Orbit, Geometric, Pow2;
    var g, odd := Geometric(a, n), (a - 1) * s + c;
    IncrementOdd(a, c, s);
    OrbitClosedForm(a, c, s, n);
    hide *;
    IterateIsOrbit(a, c, Pow2(k), s, n);
    SameResidue(Orbit(a, c, s, n), s, Pow2(k));
    OddFactor(g, odd, k);
    GeometricDivides(a, n, k);
  }

  lemma IncrementOdd(a: nat, c: nat, s: nat)
    requires a % 2 == 1 && c % 2 == 1
    ensures ((a - 1) * s + c) % 2 == 1
  {
    ProductParity(a - 1, s);
    EvenPlusOdd((a - 1) * s, c);
  }

  lemma EvenPlusOdd(p: int, c: int)
    requires p % 2 == 0 && c % 2 == 1
    ensures (p + c) % 2 == 1
  {
  }

  lemma {:induction false} IterateSum(a: nat, c: nat, m: nat, s: nat, i: nat, n: nat)
    requires m > 0
    ensures Iterate(a, c, m, s, i + n) == Iterate(a, c, m, Iterate(a, c, m, s, i), n)
    ensures Iterate(a, c, m, s, i) < m
  {
    if n > 0 {
      IterateSum(a, c, m, s, i, n - 1);
    } else {
      IterateInRange(a, c, m, s, i);
    }
  }

  lemma IterateInRange(a: nat, c: nat, m: nat, s: nat, n: nat)
    requires m > 0
    ensures 0 <= Iterate(a, c, m, s, n) < m
    ensures Iterate(a, c, m, s, n) % m == Iterate(a, c, m, s, n)
  {
    ReducedInRange(if n == 0 then s else a * Iterate(a, c, m, s, n - 1) + c, m);
  }

  lemma ReducedInRange(x: int, m: nat)
    requires m > 0
    ensures 0 <= x % m < m && x % m % m == x % m
  {
    ModUnique(x % m, 0, x % m, m);
  }

  /** Two states of one orbit are equal exactly when 2^k divides their distance. */
  lemma RepeatsExactly(a: nat, c: nat, k: nat, s: nat, i: nat, j: nat)
    requires a % 4 == 1 && c % 2 == 1 && i <= j
    ensures Iterate(a, c, Pow2(k), s, i) == Iterate(a, c, Pow2(k), s, j) <==> (j - i) % Pow2(k) == 0
  {
    var m := Pow2(k);
    IterateSum(a, c, m, s, i, j - i);
    IterateInRange(a, c, m, s, i);
    FullPeriodTheorem(a, c, k, Iterate(a, c, m, s, i), j - i);
  }

  ghost function Visited(a: nat, c: nat, m: nat, s: nat, n: nat): set<nat>
    requires m > 0
  {
    if n == 0 then {} else Visited(a, c, m, s, n - 1) + {Iterate(a, c, m, s, n - 1)}
  }

  ghost function Below(m: nat): set<nat> {
    if m == 0 then {} else Below(m - 1) + {m - 1}
  }

  lemma BelowMember(m: nat, x: nat)
    ensures x in Below(m) <==> x < m
  {
  }

  lemma {:induction false} BelowSize(m: nat)
    ensures |Below(m)| == m
  {
    if m > 0 {
      BelowSize(m - 1);
      BelowMember(m - 1, m - 1);
    }
  }

  lemma {:induction false} VisitedIndex(a: nat, c: nat, m: nat, s: nat, n: nat, x: nat)
    requires m > 0
    ensures x in Visited(a, c, m, s, n) ==> exists i: nat :: i < n && Iterate(a, c, m, s, i) == x
    ensures Visited(a, c, m, s, n) <= Below(m)
  {
    if n > 0 {
      VisitedIndex(a, c, m, s, n - 1, x);
      IterateInRange(a, c, m, s, n - 1);
      BelowMember(m, Iterate(a, c, m, s, n - 1));
      if x == Iterate(a, c, m, s, n - 1) {
        assert n - 1 < n;
      }
    }
  }

  lemma {:induction false} VisitedSize(a: nat, c: nat, k: nat, s: nat, n: nat)
    requires a % 4 == 1 && c % 2 == 1 && n <= Pow2(k)
    ensures |Visited(a, c, Pow2(k), s, n)| == n
  {
    if n > 0 {
      VisitedSize(a, c, k, s, n - 1);
      NotYetVisited(a, c, k, s, n - 1);
    }
  }

  lemma NotYetVisited(a: nat, c: nat, k: nat, s: nat, n: nat)
    requires a % 4 == 1 && c % 2 == 1 && n < Pow2(k)
    ensures Iterate(a, c, Pow2(k), s, n) !in Visited(a, c, Pow2(k), s, n)
  {
    hide Iterate, Pow2, Visited;
    var m := Pow2(k);
    var x := Iterate(a, c, m, s, n);
    VisitedIndex(a, c, m, s, n, x);
    forall i: nat | i < n ensures Iterate(a, c, m, s, i) != x {
      RepeatsExactly(a, c, k, s, i, n);
      ModUnique(n - i, 0, n - i, m);
    }
  }

  /** Every residue is reached, from every start, in fewer than 2^k steps. */
  lemma ReachesEverything(a: nat, c: nat, k: nat, s: nat, target: nat) returns (n: nat)
    requires a % 4 == 1 && c % 2 == 1 && target < Pow2(k)
    ensures n < Pow2(k) && Iterate(a, c, Pow2(k), s, n) == target
  {
    var m := Pow2(k);
    var v := Visited(a, c, m, s, m);
    VisitedSize(a, c, k, s, m);
    VisitedIndex(a, c, m, s, m, target);
    BelowSize(m);
    SubsetOfSameSize(v, Below(m));
    BelowMember(m, target);
    n :| n < m && Iterate(a, c, m, s, n) == target;
  }

  lemma SubsetOfSameSize(v: set<nat>, w: set<nat>)
    requires v <= w && |v| == |w|
    ensures v == w
  {
    assert w == v + (w - v);
    assert |w| == |v| + |w - v|;
  }
}
