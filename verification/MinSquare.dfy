/** The k-by-k square with the least sum, found three ways on 64-bit words. */
module MinSquare {
  import opened Arith

  type Word = x: nat | x < 0x1_0000_0000_0000_0000

  type Matrix = seq<seq<Word>>

  const SIZE_MAX: nat := 0xFFFF_FFFF_FFFF_FFFF

  predicate Shape(a: Matrix, m: nat, n: nat) {
    |a| == m && forall r :: 0 <= r < m ==> |a[r]| == n
  }

  /** The sum of `w` entries of a row from column `x` on. */
  function RowSum(row: seq<Word>, x: nat, w: nat): nat
    requires x + w <= |row|
  {
    if w == 0 then 0 else RowSum(row, x, w - 1) + row[x + w - 1]
  }

  /** The sum of a block of `h` rows and `w` columns. */
  function Block(a: Matrix, y: nat, h: nat, x: nat, w: nat): nat
    requires y + h <= |a| && forall r :: 0 <= r < |a| ==> x + w <= |a[r]|
  {
    if h == 0 then 0 else Block(a, y, h - 1, x, w) + RowSum(a[y + h - 1], x, w)
  }

  /** What the routines compare: the true sum of a square, as a 64-bit word. */
  function SquareWord(a: Matrix, k: nat, y: nat, x: nat): nat
    requires y + k <= |a| && forall r :: 0 <= r < |a| ==> x + k <= |a[r]|
  {
    U64(Block(a, y, k, x, k))
  }

  datatype Answer = Nothing | Found(sum: nat, x: nat, y: nat)

  predicate Before(y: nat, x: nat, v: nat, u: nat) {
    y < v || (y == v && x < u)
  }

  /** Square positions of an m-by-n matrix. */
  predicate Position(m: nat, n: nat, k: nat, y: nat, x: nat) {
    y + k <= m && x + k <= n
  }

  /** The minimum over the positions before (v, u), and the first position that attains it. */
  ghost predicate Best(a: Matrix, m: nat, n: nat, k: nat, v: nat, u: nat, best: Answer)
    requires Shape(a, m, n)
  {
    match best
    case Nothing =>
      forall y: nat, x: nat :: Position(m, n, k, y, x) && Before(y, x, v, u) ==> SquareWord(a, k, y, x) == SIZE_MAX
    case Found(sum, cx, cy) =>
      && Position(m, n, k, cy, cx) && Before(cy, cx, v, u) && sum == SquareWord(a, k, cy, cx) && sum < SIZE_MAX
      && (forall y: nat, x: nat :: Position(m, n, k, y, x) && Before(y, x, v, u) ==> sum <= SquareWord(a, k, y, x))
      && (forall y: nat, x: nat :: Position(m, n, k, y, x) && Before(y, x, cy, cx) ==> sum < SquareWord(a, k, y, x))
  }

  /** The value compared against, `ret`. */
  function Threshold(best: Answer): nat {
    if best.Found? then best.sum else SIZE_MAX
  }

  function Better(best: Answer, temp: nat, y: nat, x: nat): Answer {
    if temp < Threshold(best) then Found(temp, x, y) else best
  }

  lemma BestStart(a: Matrix, m: nat, n: nat, k: nat)
    requires Shape(a, m, n)
    ensures Best(a, m, n, k, 0, 0, Nothing)
  {
  }

  lemma BestStep(a: Matrix, m: nat, n: nat, k: nat, v: nat, u: nat, best: Answer)
    requires Shape(a, m, n) && Position(m, n, k, v, u) && Best(a, m, n, k, v, u, best)
    ensures Best(a, m, n, k, v, u + 1, Better(best, SquareWord(a, k, v, u), v, u))
  {
    hide SquareWord;
    SquareWordBound(a, k, v, u);
  }

  lemma SquareWordBound(a: Matrix, k: nat, y: nat, x: nat)
    requires y + k <= |a| && forall r :: 0 <= r < |a| ==> x + k <= |a[r]|
    ensures SquareWord(a, k, y, x) <= SIZE_MAX
  {
  }

  lemma BestRow(a: Matrix, m: nat, n: nat, k: nat, v: nat, u: nat, best: Answer)
    requires Shape(a, m, n) && Best(a, m, n, k, v, u, best) && n < u + k
    ensures Best(a, m, n, k, v + 1, 0, best)
  {
    hide SquareWord;
  }

  /** The final claim: the first row-major minimum over all squares, if it is below SIZE_MAX. */
  ghost predicate IsMinimum(a: Matrix, m: nat, n: nat, k: nat, best: Answer)
    requires Shape(a, m, n)
  {
    match best
    case Nothing => forall y: nat, x: nat :: Position(m, n, k, y, x) ==> SquareWord(a, k, y, x) == SIZE_MAX
    case Found(sum, cx, cy) =>
      && Position(m, n, k, cy, cx) && sum == SquareWord(a, k, cy, cx) && sum < SIZE_MAX
      && (forall y: nat, x: nat :: Position(m, n, k, y, x) ==> sum <= SquareWord(a, k, y, x))
      && (forall y: nat, x: nat :: Position(m, n, k, y, x) && Before(y, x, cy, cx) ==> sum < SquareWord(a, k, y, x))
  }

  lemma BestEnd(a: Matrix, m: nat, n: nat, k: nat, v: nat, best: Answer)
    requires Shape(a, m, n) && Best(a, m, n, k, v, 0, best) && m < v + k
    ensures IsMinimum(a, m, n, k, best)
  {
    hide SquareWord;
  }

  /** There is one answer, so the three routines agree. */
  lemma MinimumUnique(a: Matrix, m: nat, n: nat, k: nat, p: Answer, q: Answer)
    requires Shape(a, m, n) && k <= m && k <= n && IsMinimum(a, m, n, k, p) && IsMinimum(a, m, n, k, q)
    ensures p == q
  {
    hide SquareWord;
    assert Position(m, n, k, 0, 0);
  }

  /** No true sum of a square reaches the sentinel; prefix sums may wrap all the same. */
  ghost predicate SumsFit(a: Matrix, m: nat, n: nat, k: nat)
    requires Shape(a, m, n)
  {
    forall y: nat, x: nat :: Position(m, n, k, y, x) ==> Block(a, y, k, x, k) < SIZE_MAX
  }

  /** Then the answer is the true minimum, at its first position in row-major order. */
  lemma TrueMinimum(a: Matrix, m: nat, n: nat, k: nat, best: Answer)
    requires Shape(a, m, n) && k <= m && k <= n && SumsFit(a, m, n, k) && IsMinimum(a, m, n, k, best)
    ensures best.Found? && Position(m, n, k, best.y, best.x) && best.sum == Block(a, best.y, k, best.x, k)
    ensures forall y: nat, x: nat :: Position(m, n, k, y, x) ==> best.sum <= Block(a, y, k, x, k)
    ensures forall y: nat, x: nat :: Position(m, n, k, y, x) && Before(y, x, best.y, best.x) ==>
              best.sum < Block(a, y, k, x, k)
  {
    forall y: nat, x: nat | Position(m, n, k, y, x)
      ensures SquareWord(a, k, y, x) == Block(a, y, k, x, k) < SIZE_MAX
    {
    }
    assert Position(m, n, k, 0, 0);
  }

  // ---------- sums and prefix sums ----------

  lemma {:induction false} RowSumSplit(row: seq<Word>, x: nat, w: nat)
    requires x + w <= |row|
    ensures RowSum(row, 0, x + w) == RowSum(row, 0, x) + RowSum(row, x, w)
  {
    if w > 0 {
      RowSumSplit(row, x, w - 1);
    }
  }

  /** A block is what is left of four corner prefixes. */
  lemma {:induction false} BlockFromPrefixes(a: Matrix, y: nat, h: nat, x: nat, w: nat)
    requires y + h <= |a| && forall r :: 0 <= r < |a| ==> x + w <= |a[r]|
    ensures Block(a, y, h, x, w) ==
      Block(a, 0, y + h, 0, x + w) - Block(a, 0, y + h, 0, x) - Block(a, 0, y, 0, x + w) + Block(a, 0, y, 0, x)
  {
    if h > 0 {
      BlockFromPrefixes(a, y, h - 1, x, w);
      RowSumSplit(a[y + h - 1], x, w);
    }
  }

  /** Additions and subtractions of 64-bit words are those of the numbers behind them. */
  lemma WordsCombine(p: int, q: int, r: int, s: int)
    ensures U64(U64(p) + U64(q) - U64(r) - U64(s)) == U64(p + q - r - s)
  {
    var i, j, k, l := p / B64, q / B64, r / B64, s / B64;
    var t := U64(p) + U64(q) - U64(r) - U64(s);
    assert p + q - r - s == t + B64 * (i + j - k - l);
    ShiftWord(t, i + j - k - l);
  }

  lemma ShiftWord(t: int, q: int)
    ensures U64(t + B64 * q) == U64(t)
  {
    var d := t / B64;
    ModUnique(t + B64 * q, d + q, t % B64, B64);
  }

  lemma WordsAdd(p: int, q: int)
    ensures U64(U64(p) + U64(q)) == U64(p + q)
    ensures U64(U64(p)) == U64(p)
  {
    WordsCombine(p, q, 0, 0);
    WordsCombine(p, 0, 0, 0);
  }

  // ---------- first way: two in-place passes of sliding sums ----------

  /** Column (y, x) while the row pass has summed everything before (v, u). */
  function RowPassed(a: Matrix, n: nat, k: nat, y: nat, x: nat): nat
    requires y < |a| && |a[y]| == n && x < n
  {
    if x + k <= n then U64(RowSum(a[y], x, k)) else a[y][x]
  }

  method Load(a: Matrix, m: nat, n: nat) returns (c: array2<nat>)
    requires Shape(a, m, n)
    ensures fresh(c) && c.Length0 == m && c.Length1 == n
    ensures forall y, x :: 0 <= y < m && 0 <= x < n ==> c[y, x] == a[y][x]
  {
    c := new nat[m, n](
      (y, x) requires 0 <= y < m && 0 <= x < n && Shape(a, m, n) => a[y][x]);
  }

  /**
   * `wasted_wtf_is_this`. Unlike the other two it does not reject k = 0, for which the row pass runs over the end
   * of the first row; `overrun` reports that write, which happens for no other input.
   */
  method SlidingSums(a: Matrix, m: nat, n: nat, k: nat) returns (best: Answer, overrun: bool)
    requires Shape(a, m, n)
    ensures overrun <==> m > 0 && n > 0 && k == 0
    ensures m == 0 || n == 0 || k >= n || k >= m ==> best == Nothing
    ensures 0 < k < n && k < m ==> IsMinimum(a, m, n, k, best)
  {
    best, overrun := Nothing, false;
    if n == 0 || m == 0 || k >= n || k >= m {
      return;
    }
    var c := Load(a, m, n);
    overrun := RowPass(a, m, n, k, c);
    if overrun {
      return;
    }
    ColumnPass(a, m, n, k, c);
    best := Scan(a, m, n, k, c);
  }

  /** The cells a row sum reads still hold the input. */
  method SumAcross(c: array2<nat>, y: nat, x: nat, k: nat, ghost row: seq<Word>) returns (temp: nat)
    requires y < c.Length0 && x + k <= c.Length1 && x + k <= |row|
    requires forall u :: x <= u < x + k ==> c[y, u] == row[u]
    ensures temp == U64(RowSum(row, x, k))
  {
    temp := 0;
    var i := 0;
    while i < k
      invariant 0 <= i <= k && temp == U64(RowSum(row, x, i))
    {
      WordsAddNumber(RowSum(row, x, i), row[x + i]);
      temp := U64(temp + c[y, x + i]);
      i := i + 1;
    }
  }

  /** The cells a column sum reads still hold row sums. */
  method SumDown(c: array2<nat>, y: nat, x: nat, k: nat, ghost a: Matrix) returns (temp: nat)
    requires y + k <= c.Length0 && x < c.Length1 && y + k <= |a|
    requires forall r :: 0 <= r < |a| ==> x + k <= |a[r]|
    requires forall v :: y <= v < y + k ==> c[v, x] == U64(RowSum(a[v], x, k))
    ensures temp == SquareWord(a, k, y, x)
  {
    temp := 0;
    var i := 0;
    while i < k
      invariant 0 <= i <= k && temp == U64(Block(a, y, i, x, k))
    {
      WordsAdd(Block(a, y, i, x, k), RowSum(a[y + i], x, k));
      temp := U64(temp + c[y + i, x]);
      i := i + 1;
    }
  }

  /** The last column written is n - k, which lies inside the row if and only if k is positive. */
  method RowPass(a: Matrix, m: nat, n: nat, k: nat, c: array2<nat>) returns (overrun: bool)
    requires Shape(a, m, n) && m > 0 && k < n && c.Length0 == m && c.Length1 == n
    requires forall y, x :: 0 <= y < m && 0 <= x < n ==> c[y, x] == a[y][x]
    modifies c
    ensures overrun <==> k == 0
    ensures !overrun ==> forall y, x :: 0 <= y < m && 0 <= x < n ==> c[y, x] == RowPassed(a, n, k, y, x)
  {
    overrun := false;
    var y := 0;
    while y < m
      invariant 0 <= y <= m && (y > 0 ==> k > 0)
      invariant forall v, u :: 0 <= v < y && 0 <= u < n ==> c[v, u] == RowPassed(a, n, k, v, u)
      invariant forall v, u :: y <= v < m && 0 <= u < n ==> c[v, u] == a[v][u]
    {
      var x := 0;
      while x <= n - k
        invariant 0 <= x <= n - k + 1 && x <= n
        invariant forall v, u :: 0 <= v < y && 0 <= u < n ==> c[v, u] == RowPassed(a, n, k, v, u)
        invariant forall v, u :: y < v < m && 0 <= u < n ==> c[v, u] == a[v][u]
        invariant forall u :: 0 <= u < x ==> c[y, u] == RowPassed(a, n, k, y, u)
        invariant forall u :: x <= u < n ==> c[y, u] == a[y][u]
      {
        var temp := SumAcross(c, y, x, k, a[y]);
        if x == n {
          return true;
        }
        c[y, x] := temp;
        x := x + 1;
      }
      y := y + 1;
    }
  }

  lemma WordsAddNumber(p: int, q: int)
    ensures U64(U64(p) + q) == U64(p + q)
  {
    var i := p / B64;
    assert p + q == U64(p) + q + B64 * i;
    ShiftWord(U64(p) + q, i);
  }

  method ColumnPass(a: Matrix, m: nat, n: nat, k: nat, c: array2<nat>)
    requires Shape(a, m, n) && 0 < k < n && k < m && c.Length0 == m && c.Length1 == n
    requires forall y, x :: 0 <= y < m && 0 <= x < n ==> c[y, x] == RowPassed(a, n, k, y, x)
    modifies c
    ensures forall y: nat, x: nat :: Position(m, n, k, y, x) ==> c[y, x] == SquareWord(a, k, y, x)
  {
    var y := 0;
    while y <= m - k
      invariant 0 <= y <= m - k + 1
      invariant forall v, u :: 0 <= v < y && 0 <= u <= n - k ==> c[v, u] == SquareWord(a, k, v, u)
      invariant forall v, u :: y <= v < m && 0 <= u < n ==> c[v, u] == RowPassed(a, n, k, v, u)
    {
      var x := 0;
      while x <= n - k
        invariant 0 <= x <= n - k + 1
        invariant forall v, u :: 0 <= v < y && 0 <= u <= n - k ==> c[v, u] == SquareWord(a, k, v, u)
        invariant forall u :: 0 <= u < x ==> c[y, u] == SquareWord(a, k, y, u)
        invariant forall u :: x <= u < n ==> c[y, u] == RowPassed(a, n, k, y, u)
        invariant forall v, u :: y < v < m && 0 <= u < n ==> c[v, u] == RowPassed(a, n, k, v, u)
      {
        var temp := SumDown(c, y, x, k, a);
        c[y, x] := temp;
        x := x + 1;
      }
      y := y + 1;
    }
  }

  /** The search shared by the three routines, on a table of square words. */
  method Scan(a: Matrix, m: nat, n: nat, k: nat, c: array2<nat>) returns (best: Answer)
    requires Shape(a, m, n) && k <= n && k <= m && c.Length0 > m - k && c.Length1 > n - k
    requires forall y: nat, x: nat :: Position(m, n, k, y, x) ==> c[y, x] == SquareWord(a, k, y, x)
    ensures IsMinimum(a, m, n, k, best)
  {
    hide Best, SquareWord, IsMinimum;
    best := Nothing;
    BestStart(a, m, n, k);
    var y := 0;
    while y <= m - k
      invariant 0 <= y <= m - k + 1 && Best(a, m, n, k, y, 0, best)
    {
      var x := 0;
      while x <= n - k
        invariant 0 <= x <= n - k + 1 && Best(a, m, n, k, y, x, best)
      {
        assert Position(m, n, k, y, x);
        var temp := c[y, x];
        BestStep(a, m, n, k, y, x, best);
        if temp < Threshold(best) {
          best := Found(temp, x, y);
        }
        x := x + 1;
      }
      BestRow(a, m, n, k, y, x, best);
      y := y + 1;
    }
    BestEnd(a, m, n, k, y, best);
  }

  // ---------- second and third way: prefix sums ----------

  /** The sum of the first `y` rows and `x` columns. */
  function Prefix(a: Matrix, y: nat, x: nat): nat
    requires y <= |a| && forall r :: 0 <= r < |a| ==> x <= |a[r]|
  {
    Block(a, 0, y, 0, x)
  }

  lemma {:induction false} PrefixEmpty(a: Matrix, y: nat)
    requires y <= |a|
    ensures Block(a, 0, y, 0, 0) == 0
  {
    if y > 0 {
      PrefixEmpty(a, y - 1);
    }
  }

  /** The recurrence both tables are filled by. */
  lemma PrefixStep(a: Matrix, y: nat, x: nat)
    requires y < |a| && forall r :: 0 <= r < |a| ==> x < |a[r]|
    ensures Prefix(a, y + 1, x + 1) == a[y][x] + Prefix(a, y, x + 1) + Prefix(a, y + 1, x) - Prefix(a, y, x)
    ensures Prefix(a, 0, x) == 0 && Prefix(a, 0, x + 1) == 0 && Prefix(a, y, 0) == 0 && Prefix(a, y + 1, 0) == 0
  {
    PrefixEmpty(a, y);
    PrefixEmpty(a, y + 1);
  }

  lemma PrefixEdges(a: Matrix, y: nat, x: nat)
    requires y <= |a| && forall r :: 0 <= r < |a| ==> x <= |a[r]|
    ensures Prefix(a, 0, x) == 0 && Prefix(a, y, 0) == 0 && U64(0) == 0
  {
    PrefixEmpty(a, y);
  }

  lemma SquareFromPrefixes(a: Matrix, y: nat, x: nat, k: nat)
    requires y + k <= |a| && forall r :: 0 <= r < |a| ==> x + k <= |a[r]|
    ensures SquareWord(a, k, y, x) ==
      U64(Prefix(a, y + k, x + k) - Prefix(a, y, x + k) - Prefix(a, y + k, x) + Prefix(a, y, x))
  {
    BlockFromPrefixes(a, y, k, x, k);
  }

  lemma WordsUnchain(p: int, q: int, r: int, t: int)
    ensures U64(U64(U64(U64(p) - U64(q)) - U64(r)) + U64(t)) == U64(p - q - r + t)
    ensures U64(U64(p)) == U64(p) && U64(U64(p - q)) == U64(p - q) && U64(U64(p - q - r)) == U64(p - q - r)
    ensures U64(U64(p) - U64(q)) == U64(p - q)
    ensures U64(U64(U64(p) - U64(q)) - U64(r)) == U64(p - q - r)
  {
    WordsDrop(p, q);
    WordsDrop(p - q, r);
    hide U64;
    WordsAddWord(p - q - r, t);
    WordsAddWord(p, 0);
    WordsAddWord(p - q, 0);
    WordsAddWord(p - q - r, 0);
  }

  lemma WordsAddWord(p: int, q: int)
    ensures U64(U64(p) + U64(q)) == U64(p + q)
    ensures U64(U64(p)) == U64(p)
  {
    WordsAdd(p, q);
  }

  lemma WordsDrop(p: int, q: int)
    ensures U64(U64(p) - U64(q)) == U64(p - q)
  {
    WordsCombine(p, 0, q, 0);
  }

  lemma SmallWord(v: Word)
    ensures U64(v) == v
  {
  }

  lemma WordsChain(v: int, p: int, q: int, r: int)
    ensures U64(U64(U64(v + U64(p)) + U64(q)) - U64(r)) == U64(v + p + q - r)
    ensures U64(U64(v + U64(p)) + U64(q)) == U64(v + p + q)
    ensures U64(v + U64(p)) == U64(v + p) && U64(U64(v + p)) == U64(v + p) && U64(0) == 0
  {
    WordsAddNumber(p, v);
    WordsAdd(v + p, q);
    WordsDrop(v + p + q, r);
  }

  /** The cell (y, x) of the unpadded table, from the cells above and to the left. */
  method FillCell(pf: array2<nat>, y: nat, x: nat, a: Matrix) returns (temp: nat)
    requires y < pf.Length0 == |a| && x < pf.Length1 && Shape(a, pf.Length0, pf.Length1)
    requires y > 0 ==> pf[y - 1, x] == U64(Prefix(a, y, x + 1))
    requires x > 0 ==> pf[y, x - 1] == U64(Prefix(a, y + 1, x))
    requires y > 0 && x > 0 ==> pf[y - 1, x - 1] == U64(Prefix(a, y, x))
    ensures temp == U64(Prefix(a, y + 1, x + 1))
  {
    hide Prefix, U64;
    PrefixStep(a, y, x);
    WordsChain(a[y][x], Prefix(a, y, x + 1), Prefix(a, y + 1, x), Prefix(a, y, x));
    SmallWord(a[y][x]);
    temp := a[y][x];
    if y > 0 { temp := U64(temp + pf[y - 1, x]); }
    if x > 0 { temp := U64(temp + pf[y, x - 1]); }
    if y > 0 && x > 0 { temp := U64(temp - pf[y - 1, x - 1]); }
  }

  /** The square at (y, x) of side j + 1 from the unpadded table. */
  method ReadSquare(pf: array2<nat>, y: nat, x: nat, j: nat, ghost a: Matrix) returns (temp: nat)
    requires Shape(a, pf.Length0, pf.Length1) && y + j < pf.Length0 && x + j < pf.Length1
    requires forall v: nat, u: nat :: v < pf.Length0 && u < pf.Length1 ==> pf[v, u] == U64(Prefix(a, v + 1, u + 1))
    ensures temp == SquareWord(a, j + 1, y, x)
  {
    hide Prefix, Block, SquareWord, U64;
    PrefixEdges(a, y + (j + 1), x + (j + 1));
    PrefixEdges(a, y, x);
    SquareFromPrefixes(a, y, x, j + 1);
    var p, q := Prefix(a, y + (j + 1), x + (j + 1)), Prefix(a, y, x + (j + 1));
    var r, t := Prefix(a, y + (j + 1), x), Prefix(a, y, x);
    WordsUnchain(p, q, r, t);
    temp := pf[y + j, x + j];
    if y > 0 { temp := U64(temp - pf[y - 1, x + j]); }
    if x > 0 { temp := U64(temp - pf[y + j, x - 1]); }
    if y > 0 && x > 0 { temp := U64(temp + pf[y - 1, x - 1]); }
  }

  /** `wasted_wtf_is_this2`: prefix sums that include the cell itself. */
  method UnpaddedPrefixes(a: Matrix, m: nat, n: nat, k: nat) returns (best: Answer)
    requires Shape(a, m, n)
    ensures m == 0 || n == 0 || k == 0 || k >= n || k >= m ==> best == Nothing
    ensures 0 < k < n && k < m ==> IsMinimum(a, m, n, k, best)
  {
    best := Nothing;
    if n == 0 || m == 0 || k == 0 || k >= n || k >= m {
      return;
    }
    var pf := FillUnpadded(a, m, n);
    best := ScanUnpadded(a, m, n, k, pf);
  }

  method ScanUnpadded(a: Matrix, m: nat, n: nat, k: nat, pf: array2<nat>) returns (best: Answer)
    requires Shape(a, m, n) && 0 < k < n && k < m && pf.Length0 == m && pf.Length1 == n
    requires forall v: nat, u: nat :: v < m && u < n ==> pf[v, u] == U64(Prefix(a, v + 1, u + 1))
    ensures IsMinimum(a, m, n, k, best)
  {
    best := Nothing;
    var j := k - 1;
    var rows, columns := m - j, n - j;
    hide Best, SquareWord, IsMinimum, Prefix;
    BestStart(a, m, n, k);
    var y := 0;
    while y < rows
      invariant 0 <= y <= rows && Best(a, m, n, k, y, 0, best)
    {
      var x := 0;
      while x < columns
        invariant 0 <= x <= columns && Best(a, m, n, k, y, x, best)
      {
        var temp := ReadSquare(pf, y, x, j, a);
        BestStep(a, m, n, k, y, x, best);
        if temp < Threshold(best) {
          best := Found(temp, x, y);
        }
        x := x + 1;
      }
      BestRow(a, m, n, k, y, x, best);
      y := y + 1;
    }
    BestEnd(a, m, n, k, y, best);
  }

  method FillUnpadded(a: Matrix, m: nat, n: nat) returns (pf: array2<nat>)
    requires Shape(a, m, n)
    ensures fresh(pf) && pf.Length0 == m && pf.Length1 == n
    ensures forall v: nat, u: nat :: v < m && u < n ==> pf[v, u] == U64(Prefix(a, v + 1, u + 1))
  {
    hide Prefix, U64;
    pf := new nat[m, n];
    var y := 0;
    while y < m
      invariant 0 <= y <= m
      invariant forall v: nat, u: nat :: v < y && u < n ==> pf[v, u] == U64(Prefix(a, v + 1, u + 1))
    {
      var x := 0;
      while x < n
        invariant 0 <= x <= n
        invariant forall v: nat, u: nat :: v < y && u < n ==> pf[v, u] == U64(Prefix(a, v + 1, u + 1))
        invariant forall u: nat :: u < x ==> pf[y, u] == U64(Prefix(a, y + 1, u + 1))
      {
        assert x > 0 ==> pf[y, x - 1] == U64(Prefix(a, y + 1, (x - 1) + 1));
        assert y > 0 ==> pf[y - 1, x] == U64(Prefix(a, (y - 1) + 1, x + 1));
        assert y > 0 && x > 0 ==> pf[y - 1, x - 1] == U64(Prefix(a, (y - 1) + 1, (x - 1) + 1));
        var temp := FillCell(pf, y, x, a);
        pf[y, x] := temp;
        x := x + 1;
      }
      y := y + 1;
    }
  }

  /** `wasted_wtf_is_this3`: prefix sums with a border of zeros. */
  method PaddedPrefixes(a: Matrix, m: nat, n: nat, k: nat) returns (best: Answer)
    requires Shape(a, m, n)
    ensures m == 0 || n == 0 || k == 0 || k >= n || k >= m ==> best == Nothing
    ensures 0 < k < n && k < m ==> IsMinimum(a, m, n, k, best)
  {
    best := Nothing;
    if n == 0 || m == 0 || k == 0 || k >= n || k >= m {
      return;
    }
    var pf := FillPadded(a, m, n);
    best := ScanPadded(a, m, n, k, pf);
  }

  method ScanPadded(a: Matrix, m: nat, n: nat, k: nat, pf: array2<nat>) returns (best: Answer)
    requires Shape(a, m, n) && 0 < k < n && k < m && pf.Length0 == m + 1 && pf.Length1 == n + 1
    requires forall v: nat, u: nat :: v <= m && u <= n ==> pf[v, u] == U64(Prefix(a, v, u))
    ensures IsMinimum(a, m, n, k, best)
  {
    hide Best, SquareWord, IsMinimum, Prefix, U64;
    best := Nothing;
    BestStart(a, m, n, k);
    var y := 0;
    while y <= m - k
      invariant 0 <= y <= m - k + 1 && Best(a, m, n, k, y, 0, best)
    {
      var x := 0;
      while x <= n - k
        invariant 0 <= x <= n - k + 1 && Best(a, m, n, k, y, x, best)
      {
        FourCorners(a, k, y, x);
        var temp := U64(pf[y + k, x + k] + pf[y, x] - pf[y, x + k] - pf[y + k, x]);
        BestStep(a, m, n, k, y, x, best);
        if temp < Threshold(best) {
          best := Found(temp, x, y);
        }
        x := x + 1;
      }
      BestRow(a, m, n, k, y, x, best);
      y := y + 1;
    }
    BestEnd(a, m, n, k, y, best);
  }

  lemma FourCorners(a: Matrix, k: nat, y: nat, x: nat)
    requires y + k <= |a| && forall r :: 0 <= r < |a| ==> x + k <= |a[r]|
    ensures U64(U64(Prefix(a, y + k, x + k)) + U64(Prefix(a, y, x)) - U64(Prefix(a, y, x + k)) - U64(Prefix(a, y + k, x)))
         == SquareWord(a, k, y, x)
  {
    SquareFromPrefixes(a, y, x, k);
    WordsCombine(Prefix(a, y + k, x + k), Prefix(a, y, x), Prefix(a, y, x + k), Prefix(a, y + k, x));
  }

  method FillPadded(a: Matrix, m: nat, n: nat) returns (pf: array2<nat>)
    requires Shape(a, m, n)
    ensures fresh(pf) && pf.Length0 == m + 1 && pf.Length1 == n + 1
    ensures forall v: nat, u: nat :: v <= m && u <= n ==> pf[v, u] == U64(Prefix(a, v, u))
  {
    hide Prefix, U64;
    pf := new nat[m + 1, n + 1];
    forall x: nat | x <= n { pf[0, x] := 0; }
    forall y: nat | 1 <= y <= m { pf[y, 0] := 0; }
    ZeroBorder(a, m, n);
    var y := 0;
    while y < m
      invariant 0 <= y <= m
      invariant forall v: nat, u: nat :: v <= y && u <= n ==> pf[v, u] == U64(Prefix(a, v, u))
      invariant forall v: nat :: v <= m ==> pf[v, 0] == U64(Prefix(a, v, 0))
    {
      var x, row := 0, y + 1;
      while x < n
        invariant 0 <= x <= n
        invariant forall v: nat, u: nat :: v <= y && u <= n ==> pf[v, u] == U64(Prefix(a, v, u))
        invariant forall u: nat :: u <= x ==> pf[row, u] == U64(Prefix(a, row, u))
        invariant forall v: nat :: v <= m ==> pf[v, 0] == U64(Prefix(a, v, 0))
      {
        FillStep(a, y, x);
        pf[row, x + 1] := U64(a[y][x] + pf[y, x + 1] + pf[row, x] - pf[y, x]);
        x := x + 1;
      }
      y := y + 1;
    }
  }

  lemma ZeroBorder(a: Matrix, m: nat, n: nat)
    requires Shape(a, m, n)
    ensures forall v: nat :: v <= m ==> U64(Prefix(a, v, 0)) == 0
    ensures forall u: nat :: u <= n ==> U64(Prefix(a, 0, u)) == 0
  {
    forall v: nat | v <= m ensures U64(Prefix(a, v, 0)) == 0 {
      PrefixEdges(a, v, 0);
    }
    forall u: nat | u <= n ensures U64(Prefix(a, 0, u)) == 0 {
      PrefixEdges(a, 0, u);
    }
  }

  lemma FillStep(a: Matrix, y: nat, x: nat)
    requires y < |a| && forall r :: 0 <= r < |a| ==> x < |a[r]|
    ensures U64(a[y][x] + U64(Prefix(a, y, x + 1)) + U64(Prefix(a, y + 1, x)) - U64(Prefix(a, y, x)))
         == U64(Prefix(a, y + 1, x + 1))
  {
    PrefixStep(a, y, x);
    hide Prefix, U64;
    SumOfWords(a[y][x], Prefix(a, y, x + 1), Prefix(a, y + 1, x), Prefix(a, y, x));
  }

  lemma SumOfWords(v: Word, p: int, q: int, r: int)
    ensures U64(v + U64(p) + U64(q) - U64(r)) == U64(v + p + q - r)
  {
    var i, j, k := p / B64, q / B64, r / B64;
    var t := v + U64(p) + U64(q) - U64(r);
    assert v + p + q - r == t + B64 * (i + j - k);
    ShiftWord(t, i + j - k);
  }
}
