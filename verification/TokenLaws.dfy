/** Laws of the stack language: running a quotation in place, and the author's rewrite rules. */
module TokenLaws {
  import opened Arith
  import opened TokenText
  import opened Programs
  import opened TokenRefinement

  const OPERATORS: string := "~+-<>,"

  /** A run that does not hit the depth limit gives the same outcome with one more level. */
  lemma {:induction false} MoreFuel(fuel: nat, st: seq<Program>, p: Program)
    ensures Eval(fuel, st, p) != Overflow ==> Eval(fuel + 1, st, p) == Eval(fuel, st, p)
    decreases fuel, p
  {
    var n := |st|;
    match p
    case End =>
    case Quote(b, next) => MoreFuel(fuel, st + [b], next);
    case Op(c, next) =>
      match c
      case '~' => if n >= 2 { MoreFuel(fuel, st[..n - 2] + [st[n - 1], st[n - 2]], next); }
      case '+' => if n >= 1 { MoreFuel(fuel, st + [st[n - 1]], next); }
      case '-' => if n >= 1 { MoreFuel(fuel, st[..n - 1], next); }
      case '>' => if n >= 1 { MoreFuel(fuel, st[..n - 1] + [Quote(st[n - 1], End)], next); }
      case ',' => if n >= 2 { MoreFuel(fuel, st[..n - 2] + [Append(st[n - 2], st[n - 1])], next); }
      case '<' =>
        if n >= 1 && fuel > 0 {
          MoreFuel(fuel - 1, st[..n - 1], st[n - 1]);
          var o := Eval(fuel - 1, st[..n - 1], st[n - 1]);
          if o.Done? {
            MoreFuel(fuel, o.stack, next);
          }
        }
      case _ =>
  }

  /** A run that stops stops at a character that is no operator, and leaves something over. */
  lemma {:induction false} StopsAtForeign(fuel: nat, st: seq<Program>, p: Program)
    ensures var o := Eval(fuel, st, p);
            o.Stopped? ==> |o.rest| > 0 && o.rest[0].Op? && o.rest[0].c !in OPERATORS
    decreases fuel, p
  {
    var n := |st|;
    match p
    case End =>
    case Quote(b, next) => StopsAtForeign(fuel, st + [b], next);
    case Op(c, next) =>
      match c
      case '~' => if n >= 2 { StopsAtForeign(fuel, st[..n - 2] + [st[n - 1], st[n - 2]], next); }
      case '+' => if n >= 1 { StopsAtForeign(fuel, st + [st[n - 1]], next); }
      case '-' => if n >= 1 { StopsAtForeign(fuel, st[..n - 1], next); }
      case '>' => if n >= 1 { StopsAtForeign(fuel, st[..n - 1] + [Quote(st[n - 1], End)], next); }
      case ',' => if n >= 2 { StopsAtForeign(fuel, st[..n - 2] + [Append(st[n - 2], st[n - 1])], next); }
      case '<' =>
        if n >= 1 && fuel > 0 {
          StopsAtForeign(fuel - 1, st[..n - 1], st[n - 1]);
          var o := Eval(fuel - 1, st[..n - 1], st[n - 1]);
          if o.Done? {
            StopsAtForeign(fuel, o.stack, next);
          }
        }
      case _ =>
  }

  /** The text of what is left over. */
  function Joined(ps: seq<Program>): string {
    if ps == [] then "" else Print(ps[0]) + Joined(ps[1..])
  }

  lemma {:induction false} JoinedSum(ps: seq<Program>, qs: seq<Program>)
    ensures Joined(ps + qs) == Joined(ps) + Joined(qs)
  {
    if ps == [] {
      assert ps + qs == qs;
    } else {
      JoinedSum(ps[1..], qs);
      assert (ps + qs)[1..] == ps[1..] + qs;
      Associative(Print(ps[0]), Joined(ps[1..]), Joined(qs));
    }
  }

  lemma JoinedRemainder(p: Program)
    ensures Joined(Remainder(p)) == Print(p)
  {
    assert Joined([]) == "";
  }

  /** The same outcome up to where the left-over text is cut into tokens. */
  predicate Same(a: Outcome, b: Outcome) {
    a == b || (a.Stopped? && b.Stopped? && a.stack == b.stack && Joined(a.rest) == Joined(b.rest))
  }

  /** What running `q` after the outcome `o` of its predecessor amounts to. */
  predicate Continues(fuel: nat, o: Outcome, q: Program, r: Outcome) {
    match o
    case Failed => r == Failed
    case Overflow => r == Overflow
    case Done(s) => r == Eval(fuel, s, q)
    case Stopped(s, rest) => r.Stopped? && r.stack == s && Joined(r.rest) == Joined(rest) + Print(q)
  }

  /** Running `p` followed by `q` is running `q` where `p` ended. */
  lemma {:induction false} Sequencing(fuel: nat, st: seq<Program>, p: Program, q: Program)
    ensures Continues(fuel, Eval(fuel, st, p), q, Eval(fuel, st, Append(p, q)))
    decreases p
  {
    var n := |st|;
    match p
    case End =>
    case Quote(b, next) => Sequencing(fuel, st + [b], next, q);
    case Op(c, next) =>
      match c
      case '~' => if n >= 2 { Sequencing(fuel, st[..n - 2] + [st[n - 1], st[n - 2]], next, q); }
      case '+' => if n >= 1 { Sequencing(fuel, st + [st[n - 1]], next, q); }
      case '-' => if n >= 1 { Sequencing(fuel, st[..n - 1], next, q); }
      case '>' => if n >= 1 { Sequencing(fuel, st[..n - 1] + [Quote(st[n - 1], End)], next, q); }
      case ',' => if n >= 2 { Sequencing(fuel, st[..n - 2] + [Append(st[n - 2], st[n - 1])], next, q); }
      case '<' =>
        if n >= 1 && fuel > 0 {
          var o := Eval(fuel - 1, st[..n - 1], st[n - 1]);
          UngroupUnfolds(fuel, st, next);
          UngroupUnfolds(fuel, st, Append(next, q));
          if o.Done? {
            Sequencing(fuel, o.stack, next, q);
          } else if o.Stopped? {
            LeftOver(o.rest, next, q);
          }
        }
      case _ =>
        var pq := Append(p, q);
        assert pq == Op(c, Append(next, q));
        LeftOver([], p, q);
        assert [] + Remainder(p) == [p] && [] + Remainder(pq) == [pq];
        assert Eval(fuel, st, p) == Stopped(st, [p]) && Eval(fuel, st, pq) == Stopped(st, [pq]);
  }

  lemma UngroupUnfolds(fuel: nat, st: seq<Program>, next: Program)
    requires |st| > 0 && fuel > 0
    ensures var o, r := Eval(fuel - 1, st[..|st| - 1], st[|st| - 1]), Eval(fuel, st, Op('<', next));
            && (o == Failed || o == Overflow ==> r == o)
            && (o.Done? ==> r == Eval(fuel, o.stack, next))
            && (o.Stopped? ==> r == Stopped(o.stack, o.rest + Remainder(next)))
  {
    assert Eval(fuel, st, Op('<', next)) == After(fuel, Eval(fuel - 1, st[..|st| - 1], st[|st| - 1]), next);
  }

  lemma LeftOver(rest: seq<Program>, p: Program, q: Program)
    ensures Joined(rest + Remainder(Append(p, q))) == Joined(rest + Remainder(p)) + Print(q)
  {
    JoinedSum(rest, Remainder(p));
    JoinedSum(rest, Remainder(Append(p, q)));
    JoinedRemainder(p);
    JoinedRemainder(Append(p, q));
    PrintAppend(p, q);
    Associative(Joined(rest), Print(p), Print(q));
  }

  /**
   * `(w)<q` is `wq`: when the first does not hit the depth limit the second gives the same outcome,
   * and when the second does not, the first gives it with one more level.
   */
  lemma UngroupInlines(fuel: nat, st: seq<Program>, w: Program, q: Program)
    ensures var a, b := Eval(fuel, st, Quote(w, Op('<', q))), Eval(fuel, st, Append(w, q));
            a != Overflow ==> Same(a, b)
    ensures var a, b := Eval(fuel + 1, st, Quote(w, Op('<', q))), Eval(fuel, st, Append(w, q));
            b != Overflow ==> Same(a, b)
  {
    hide Eval;
    Sequencing(fuel, st, w, q);
    if fuel > 0 {
      MoreFuel(fuel - 1, st, w);
      UngroupStep(fuel, st, w, q);
    } else {
      UngroupNeedsFuel(st, w, q);
    }
    UngroupStep(fuel + 1, st, w, q);
    var o := Eval(fuel, st, w);
    if o.Done? {
      MoreFuel(fuel, o.stack, q);
    }
  }

  /** One `<` on a fresh quotation. */
  lemma UngroupStep(fuel: nat, st: seq<Program>, w: Program, q: Program)
    requires fuel > 0
    ensures var a, o := Eval(fuel, st, Quote(w, Op('<', q))), Eval(fuel - 1, st, w);
            && a == After(fuel, o, q)
            && (o.Stopped? ==> a.Stopped? && a.stack == o.stack && Joined(a.rest) == Joined(o.rest) + Print(q))
  {
    assert (st + [w])[..|st|] == st;
    var o := Eval(fuel - 1, st, w);
    assert Eval(fuel, st, Quote(w, Op('<', q))) == Eval(fuel, st + [w], Op('<', q));
    if o.Stopped? {
      JoinedSum(o.rest, Remainder(q));
      JoinedRemainder(q);
    }
  }

  lemma UngroupNeedsFuel(st: seq<Program>, w: Program, q: Program)
    ensures Eval(0, st, Quote(w, Op('<', q))) == Overflow
  {
    assert Eval(0, st, Quote(w, Op('<', q))) == Eval(0, st + [w], Op('<', q));
  }

  // ---------- the rewrite rules, on programs ----------

  /** A run of operators in front of a program. */
  function Ops(cs: seq<Plain>, k: Program): Program {
    if cs == [] then k else Op(cs[0], Ops(cs[1..], k))
  }

  function Run(fuel: nat, st: seq<Program>, cs: seq<Plain>, k: Program): Outcome {
    Eval(fuel, st, Ops(cs, k))
  }

  lemma Ops2(a: Plain, b: Plain, k: Program)
    ensures Ops([a], k) == Op(a, k) && Ops([a, b], k) == Op(a, Op(b, k))
  {
    assert [a, b][1..] == [b] && [a][1..] == [] && [b][1..] == [];
  }

  lemma Ops3(a: Plain, b: Plain, c: Plain, k: Program)
    ensures Ops([a, b, c], k) == Op(a, Op(b, Op(c, k)))
  {
    assert [a, b, c][1..] == [b, c];
    Ops2(b, c, k);
  }

  lemma Ops4(a: Plain, b: Plain, c: Plain, d: Plain, k: Program)
    ensures Ops([a, b, c, d], k) == Op(a, Op(b, Op(c, Op(d, k))))
  {
    assert [a, b, c, d][1..] == [b, c, d];
    Ops3(b, c, d, k);
  }

  // One operation on a stack written with its top elements.

  lemma SwapStep(fuel: nat, r: seq<Program>, x: Program, y: Program, k: Program)
    ensures Eval(fuel, r + [x, y], Op('~', k)) == Eval(fuel, r + [y, x], k)
  {
    assert (r + [x, y])[..|r|] == r;
  }

  lemma CopyStep(fuel: nat, r: seq<Program>, x: Program, k: Program)
    ensures Eval(fuel, r + [x], Op('+', k)) == Eval(fuel, r + [x, x], k)
  {
    assert r + [x] + [x] == r + [x, x];
  }

  lemma DropStep(fuel: nat, r: seq<Program>, x: Program, k: Program)
    ensures Eval(fuel, r + [x], Op('-', k)) == Eval(fuel, r, k)
  {
    assert (r + [x])[..|r|] == r;
  }

  lemma GroupStep(fuel: nat, r: seq<Program>, x: Program, k: Program)
    ensures Eval(fuel, r + [x], Op('>', k)) == Eval(fuel, r + [Quote(x, End)], k)
  {
    assert (r + [x])[..|r|] == r;
  }

  lemma MergeStep(fuel: nat, r: seq<Program>, x: Program, y: Program, k: Program)
    ensures Eval(fuel, r + [x, y], Op(',', k)) == Eval(fuel, r + [Append(x, y)], k)
  {
    assert (r + [x, y])[..|r|] == r;
  }

  /** Ungrouping what was just grouped gives the quotation back. */
  lemma UngroupGrouped(fuel: nat, r: seq<Program>, x: Program, k: Program)
    requires fuel > 0
    ensures Eval(fuel, r + [Quote(x, End)], Op('<', k)) == Eval(fuel, r + [x], k)
  {
    var st := r + [Quote(x, End)];
    UngroupUnfolds(fuel, st, k);
    assert st[..|st| - 1] == r;
    assert Eval(fuel - 1, r, Quote(x, End)) == Eval(fuel - 1, r + [x], End) == Done(r + [x]);
  }

  lemma Shallow(fuel: nat, st: seq<Program>, c: Plain, k: Program)
    requires |st| < 2
    ensures c in "~," ==> Eval(fuel, st, Op(c, k)) == Failed
    ensures |st| == 0 && c in OPERATORS ==> Eval(fuel, st, Op(c, k)) == Failed
  {
  }

  lemma SplitTop(st: seq<Program>) returns (r: seq<Program>, x: Program)
    requires |st| >= 1
    ensures st == r + [x]
  {
    r, x := st[..|st| - 1], st[|st| - 1];
  }

  lemma SplitTwo(st: seq<Program>) returns (r: seq<Program>, x: Program, y: Program)
    requires |st| >= 2
    ensures st == r + [x, y] == (r + [x]) + [y]
  {
    r, x, y := st[..|st| - 2], st[|st| - 2], st[|st| - 1];
  }

  lemma DropTwo(fuel: nat, r: seq<Program>, x: Program, y: Program, k: Program)
    ensures Eval(fuel, r + [x, y], Op('-', Op('-', k))) == Eval(fuel, r, k)
  {
    hide Eval;
    assert r + [x, y] == (r + [x]) + [y];
    DropStep(fuel, r + [x], y, Op('-', k));
    DropStep(fuel, r, x, k);
  }

  /** The rules that drop operations: equal outcomes on every stack, errors included. */
  lemma DroppingRules(fuel: nat, st: seq<Program>, k: Program)
    ensures Run(fuel, st, "+~", k) == Run(fuel, st, "+", k)
    ensures Run(fuel, st, ">-", k) == Run(fuel, st, "-", k)
    ensures Run(fuel, st, ",-", k) == Run(fuel, st, "--", k)
    ensures Run(fuel, st, "~--", k) == Run(fuel, st, "--", k)
    ensures Run(fuel, st, "~,-", k) == Run(fuel, st, "--", k)
  {
    Ops2('+', '~', k);
    Ops2('>', '-', k);
    Ops2(',', '-', k);
    Ops2('-', '-', k);
    Ops3('~', '-', '-', k);
    Ops3('~', ',', '-', k);
    hide Eval, Ops;
    if |st| == 0 {
      Shallow(fuel, st, '+', k);
      Shallow(fuel, st, '+', Op('~', k));
      Shallow(fuel, st, '>', Op('-', k));
      Shallow(fuel, st, '-', k);
    } else {
      var r, x := SplitTop(st);
      CopyStep(fuel, r, x, k);
      CopyStep(fuel, r, x, Op('~', k));
      SwapStep(fuel, r, x, x, k);
      GroupStep(fuel, r, x, Op('-', k));
      DropStep(fuel, r, Quote(x, End), k);
      DropStep(fuel, r, x, k);
    }
    DroppingPairs(fuel, st, k);
  }

  lemma DroppingPairs(fuel: nat, st: seq<Program>, k: Program)
    ensures Eval(fuel, st, Op(',', Op('-', k))) == Eval(fuel, st, Op('-', Op('-', k)))
    ensures Eval(fuel, st, Op('~', Op('-', Op('-', k)))) == Eval(fuel, st, Op('-', Op('-', k)))
    ensures Eval(fuel, st, Op('~', Op(',', Op('-', k)))) == Eval(fuel, st, Op('-', Op('-', k)))
  {
    hide Eval;
    if |st| < 2 {
      Shallow(fuel, st, ',', Op('-', k));
      Shallow(fuel, st, '~', Op('-', Op('-', k)));
      Shallow(fuel, st, '~', Op(',', Op('-', k)));
      Shallow(fuel, st, '-', Op('-', k));
      if |st| == 1 {
        var r, x := SplitTop(st);
        DropStep(fuel, r, x, Op('-', k));
        Shallow(fuel, r, '-', k);
      }
    } else {
      var r, x, y := SplitTwo(st);
      DropTwo(fuel, r, x, y, k);
      DropTwo(fuel, r, y, x, k);
      SwapStep(fuel, r, x, y, Op('-', Op('-', k)));
      SwapStep(fuel, r, x, y, Op(',', Op('-', k)));
      MergeStep(fuel, r, x, y, Op('-', k));
      MergeStep(fuel, r, y, x, Op('-', k));
      DropStep(fuel, r, Append(x, y), k);
      DropStep(fuel, r, Append(y, x), k);
    }
  }

  /** Both sides of the copy rules leave a grouped and a plain copy. */
  lemma GroupedBelow(fuel: nat, r: seq<Program>, x: Program, k: Program)
    ensures Eval(fuel, r + [x], Op('+', Op('>', Op('~', k)))) == Eval(fuel, r + [Quote(x, End), x], k)
    ensures fuel > 0 ==>
      Eval(fuel, r + [x], Op('>', Op('+', Op('<', k)))) == Eval(fuel, r + [Quote(x, End), x], k)
  {
    hide Eval;
    var g := Quote(x, End);
    CopyStep(fuel, r, x, Op('>', Op('~', k)));
    assert r + [x, x] == (r + [x]) + [x] && r + [x, g] == (r + [x]) + [g];
    GroupStep(fuel, r + [x], x, Op('~', k));
    SwapStep(fuel, r, x, g, k);
    GroupStep(fuel, r, x, Op('+', Op('<', k)));
    CopyStep(fuel, r, g, Op('<', k));
    assert r + [g, g] == (r + [g]) + [g] && r + [g, x] == (r + [g]) + [x];
    if fuel > 0 {
      UngroupGrouped(fuel, r + [g], x, k);
    }
  }

  /** The rules that regroup a copy; undoing the grouping needs one level below the limit. */
  lemma CopyRules(fuel: nat, st: seq<Program>, k: Program)
    ensures fuel > 0 ==> Run(fuel, st, "+>~", k) == Run(fuel, st, ">+<", k)
    ensures Run(fuel, st, "+>~>", k) == Run(fuel, st, ">+", k)
    ensures fuel > 0 ==> Run(fuel, st, ">+<>", k) == Run(fuel, st, ">+", k)
  {
    Ops3('+', '>', '~', k);
    Ops3('>', '+', '<', k);
    Ops4('+', '>', '~', '>', k);
    Ops2('>', '+', k);
    Ops4('>', '+', '<', '>', k);
    hide Eval, Ops;
    if |st| == 0 {
      Shallow(fuel, st, '+', Op('>', Op('~', k)));
      Shallow(fuel, st, '>', Op('+', Op('<', k)));
      Shallow(fuel, st, '+', Op('>', Op('~', Op('>', k))));
      Shallow(fuel, st, '>', Op('+', k));
      Shallow(fuel, st, '>', Op('+', Op('<', Op('>', k))));
    } else {
      var r, x := SplitTop(st);
      var g := Quote(x, End);
      GroupedBelow(fuel, r, x, k);
      GroupedBelow(fuel, r, x, Op('>', k));
      assert r + [g, x] == (r + [g]) + [x] && r + [g, g] == (r + [g]) + [g];
      GroupStep(fuel, r + [g], x, k);
      GroupStep(fuel, r, x, Op('+', k));
      CopyStep(fuel, r, g, k);
    }
  }

  /**
   * The patterns listed as no-operations, each with its exact outcome: they change nothing only where the
   * stack is deep enough, and grouping needs a level to be undone. A pushed quotation that is dropped
   * is a no-operation everywhere; one that is ungrouped runs in place.
   */
  lemma NoOperations(fuel: nat, st: seq<Program>, k: Program, b: Program)
    ensures Run(fuel, st, "+-", k) == if |st| >= 1 then Eval(fuel, st, k) else Failed
    ensures Run(fuel, st, "~~", k) == if |st| >= 2 then Eval(fuel, st, k) else Failed
    ensures Run(fuel, st, "><", k) ==
            if |st| == 0 then Failed else if fuel == 0 then Overflow else Eval(fuel, st, k)
    ensures Eval(fuel, st, Quote(b, Op('-', k))) == Eval(fuel, st, k)
    ensures Eval(fuel, st, Quote(b, Op('<', k))) != Overflow ==>
            Same(Eval(fuel, st, Quote(b, Op('<', k))), Eval(fuel, st, Append(b, k)))
    ensures Run(fuel, st, ">-", k) == Run(fuel, st, "-", k)
  {
    QuoteUnfolds(fuel, st, b, Op('-', k));
    UngroupInlines(fuel, st, b, k);
    DroppingRules(fuel, st, k);
    hide Eval, Ops, Run, Same;
    DropStep(fuel, st, b, k);
    CopyDropped(fuel, st, k);
    SwappedBack(fuel, st, k);
    GroupUngrouped(fuel, st, k);
    RunOfTwo(fuel, st, k);
  }

  lemma RunOfTwo(fuel: nat, st: seq<Program>, k: Program)
    ensures Run(fuel, st, "+-", k) == Eval(fuel, st, Op('+', Op('-', k)))
    ensures Run(fuel, st, "~~", k) == Eval(fuel, st, Op('~', Op('~', k)))
    ensures Run(fuel, st, "><", k) == Eval(fuel, st, Op('>', Op('<', k)))
  {
    hide Eval;
    Ops2('+', '-', k);
    Ops2('~', '~', k);
    Ops2('>', '<', k);
  }

  lemma GroupUngrouped(fuel: nat, st: seq<Program>, k: Program)
    ensures Eval(fuel, st, Op('>', Op('<', k))) ==
            if |st| == 0 then Failed else if fuel == 0 then Overflow else Eval(fuel, st, k)
  {
    if |st| == 0 {
      Shallow(fuel, st, '>', Op('<', k));
    } else {
      var r, x := SplitTop(st);
      GroupStep(fuel, r, x, Op('<', k));
      if fuel > 0 {
        hide Eval;
        UngroupGrouped(fuel, r, x, k);
      } else {
        NoLevelLeft(r, Quote(x, End), k);
      }
    }
  }

  lemma NoLevelLeft(r: seq<Program>, x: Program, k: Program)
    ensures Eval(0, r + [x], Op('<', k)) == Overflow
  {
  }

  /** `>-`, listed among the no-operations as well, is none: as a program of its own it changes every stack. */
  lemma GroupDropIsNoNoOperation(fuel: nat, st: seq<Program>)
    ensures Run(fuel, st, ">-", End) != Eval(fuel, st, End)
  {
    DroppingRules(fuel, st, End);
    Ops2('-', '-', End);
    if |st| > 0 {
      var r, x := SplitTop(st);
      DropStep(fuel, r, x, End);
    }
  }

  lemma QuoteUnfolds(fuel: nat, st: seq<Program>, b: Program, k: Program)
    ensures Eval(fuel, st, Quote(b, k)) == Eval(fuel, st + [b], k)
  {
  }

  lemma CopyDropped(fuel: nat, st: seq<Program>, k: Program)
    ensures Eval(fuel, st, Op('+', Op('-', k))) == if |st| >= 1 then Eval(fuel, st, k) else Failed
  {
    hide Eval;
    if |st| == 0 {
      Shallow(fuel, st, '+', Op('-', k));
    } else {
      var r, x := SplitTop(st);
      CopyStep(fuel, r, x, Op('-', k));
      assert r + [x, x] == st + [x];
      DropStep(fuel, st, x, k);
    }
  }

  lemma SwappedBack(fuel: nat, st: seq<Program>, k: Program)
    ensures Eval(fuel, st, Op('~', Op('~', k))) == if |st| >= 2 then Eval(fuel, st, k) else Failed
  {
    hide Eval;
    if |st| < 2 {
      Shallow(fuel, st, '~', Op('~', k));
    } else {
      var r, x, y := SplitTwo(st);
      SwapStep(fuel, r, x, y, Op('~', k));
      SwapStep(fuel, r, y, x, k);
    }
  }

  // ---------- the laws on text ----------

  lemma {:induction false} ParseStack(ts: seq<string>) returns (ps: seq<Program>)
    requires AllQuotations(ts)
    ensures Tokens(ps) == ts
  {
    if ts == [] {
      ps := [];
    } else {
      var n := |ts| - 1;
      var front := ParseStack(ts[..n]);
      var p := Parse(Inside(ts[n]));
      ps := front + [p];
      TokensOfPush(front, p);
      Reassemble(ts[n]);
      assert ts == ts[..n] + [ts[n]];
    }
  }

  lemma Reassemble(t: string)
    requires IsParenthesized(t)
    ensures t == "(" + Inside(t) + ")"
  {
  }

  /**
   * Starting from quotations - an empty list above all - every token on the list stays one balanced
   * quotation at every step of every activation, the arms for tokens that are not parenthesised, for a
   * stray `)` and for an unclosed `(` are never taken, and no nested text fails the early pass.
   */
  lemma TextRunsAreRegular(fuel: nat, ts: seq<string>, w: string)
    requires AllQuotations(ts) && Balanced(w)
    ensures RegularCall(fuel, ts, w)
  {
    if fuel > 0 {
      var ps := ParseStack(ts);
      var p := Parse(w);
      RunsAreRegular(fuel - 1, ps, p);
    }
  }

  /** The whole program, from the empty list: rejected by the early pass, or regular throughout. */
  lemma ProgramIsRegular(text: string)
    ensures if Balanced(text) then RegularCall(MAX_DEPTH, [], text) else Call(MAX_DEPTH, [], text) == Error
  {
    if Balanced(text) {
      TextRunsAreRegular(MAX_DEPTH, [], text);
    }
  }

  /** From index `k` on the stack holds left-over text; below it, quotations. */
  predicate LeftOverFrom(ts: seq<string>, k: nat) {
    && k < |ts| && AllQuotations(ts[..k])
    && ts[k] != "" && ts[k][0] !in OPERATORS && ts[k][0] !in "()"
  }

  /**
   * The shape of every reachable stack: a normal end leaves one balanced quotation per token; an
   * irreducible stop leaves quotations followed by the left-over text, which starts with a
   * character that is no operator.
   */
  lemma StackShape(fuel: nat, ts: seq<string>, w: string)
    requires AllQuotations(ts)
    ensures var r := Call(fuel, ts, w);
      && (r.Normal? ==> AllQuotations(r.stack))
      && (r.Irreducible? ==> exists k: nat :: LeftOverFrom(r.stack, k))
  {
    if fuel > 0 && Balanced(w) {
      var ps := ParseStack(ts);
      var p := Parse(w);
      CallImplements(fuel - 1, ps, p);
      StopsAtForeign(fuel - 1, ps, p);
      hide Call, Eval;
      var o := Eval(fuel - 1, ps, p);
      if o.Done? || o.Stopped? {
        forall i | 0 <= i < |o.stack| ensures IsQuotation(Tokens(o.stack)[i]) {
          TokenIsQuotation(o.stack[i]);
        }
      }
      if o.Stopped? {
        var st := Tokens(o.stack) + Texts(o.rest);
        assert st[..|o.stack|] == Tokens(o.stack);
        assert st[|o.stack|] == Print(o.rest[0]);
        assert LeftOverFrom(st, |o.stack|);
      }
    }
  }

  lemma {:induction false} ConcatSum(a: seq<string>, b: seq<string>)
    ensures Concat(a + b) == Concat(a) + Concat(b)
  {
    if a == [] {
      assert a + b == b;
    } else {
      ConcatSum(a[1..], b);
      assert (a + b)[1..] == a[1..] + b;
      Associative(a[0], Concat(a[1..]), Concat(b));
    }
  }

  lemma {:induction false} ConcatTexts(ps: seq<Program>)
    ensures Concat(Texts(ps)) == Joined(ps)
  {
    if ps != [] {
      ConcatTexts(ps[1..]);
      assert Texts(ps)[1..] == Texts(ps[1..]);
    }
  }

  /** What a caller can tell apart: failure, and the printed text. */
  lemma SameAnswer(a: Outcome, b: Outcome)
    requires Same(a, b)
    requires a.Stopped? ==> |a.rest| > 0
    requires b.Stopped? ==> |b.rest| > 0
    ensures Answer(Shown(a)) == Answer(Shown(b))
    ensures Shown(a).Error? <==> Shown(b).Error?
  {
    if a.Stopped? {
      ConcatSum(Tokens(a.stack), Texts(a.rest));
      ConcatSum(Tokens(b.stack), Texts(b.rest));
      ConcatTexts(a.rest);
      ConcatTexts(b.rest);
    }
  }

  lemma CallImplements(fuel: nat, ps: seq<Program>, p: Program)
    ensures Call(fuel + 1, Tokens(ps), Print(p)) == Shown(Eval(fuel, ps, p))
  {
    PrintBalanced(p);
    ExecImplements(fuel, ps, p);
  }

  lemma PrintUngroup(w: Program, q: Program)
    ensures Print(Quote(w, Op('<', q))) == "(" + Print(w) + ")<" + Print(q)
  {
    assert ")<" == ")" + "<";
    assert "(" + Print(w) + ")" + ("<" + Print(q)) == "(" + Print(w) + ")<" + Print(q);
  }

  /**
   * On text: `(w)<q` and `wq` print the same or fail together, from every stack of quotations, as
   * long as the depth limit is not hit.
   */
  lemma TextUngroupInlines(fuel: nat, ts: seq<string>, w: string, q: string)
    requires AllQuotations(ts) && Balanced(w) && Balanced(q)
    ensures var a, b := Call(fuel, ts, "(" + w + ")<" + q), Call(fuel, ts, w + q);
            a != TooDeep ==> Answer(a) == Answer(b) && (a == Error <==> b == Error)
    ensures var a, b := Call(fuel + 1, ts, "(" + w + ")<" + q), Call(fuel, ts, w + q);
            b != TooDeep ==> Answer(a) == Answer(b) && (a == Error <==> b == Error)
  {
    if fuel > 0 {
      var f := fuel - 1;
      var ps := ParseStack(ts);
      var pw := Parse(w);
      var pq := Parse(q);
      var grouped, plain := Quote(pw, Op('<', pq)), Append(pw, pq);
      PrintUngroup(pw, pq);
      PrintAppend(pw, pq);
      UngroupInlines(f, ps, pw, pq);
      CallImplements(f, ps, grouped);
      CallImplements(f + 1, ps, grouped);
      CallImplements(f, ps, plain);
      TextSame(f, f, ps, grouped, plain);
      TextSame(f + 1, f, ps, grouped, plain);
    }
  }

  lemma TextSame(f: nat, g: nat, ps: seq<Program>, p: Program, q: Program)
    ensures Same(Eval(f, ps, p), Eval(g, ps, q)) ==>
      var a, b := Shown(Eval(f, ps, p)), Shown(Eval(g, ps, q));
      Answer(a) == Answer(b) && (a == Error <==> b == Error)
  {
    StopsAtForeign(f, ps, p);
    StopsAtForeign(g, ps, q);
    if Same(Eval(f, ps, p), Eval(g, ps, q)) {
      SameAnswer(Eval(f, ps, p), Eval(g, ps, q));
    }
  }

  lemma {:induction false} PrintOps(cs: seq<Plain>, k: Program)
    ensures Print(Ops(cs, k)) == cs + Print(k)
  {
    if cs == [] {
      assert cs + Print(k) == Print(k);
    } else {
      PrintOps(cs[1..], k);
      assert cs == [cs[0]] + cs[1..];
      Associative([cs[0]], cs[1..], Print(k));
    }
  }

  /** A rule that holds on programs holds on text. */
  lemma TextRule(fuel: nat, ps: seq<Program>, k: Program, left: seq<Plain>, right: seq<Plain>)
    requires Run(fuel, ps, left, k) == Run(fuel, ps, right, k)
    ensures Call(fuel + 1, Tokens(ps), left + Print(k)) == Call(fuel + 1, Tokens(ps), right + Print(k))
  {
    PrintOps(left, k);
    PrintOps(right, k);
    CallImplements(fuel, ps, Ops(left, k));
    CallImplements(fuel, ps, Ops(right, k));
  }

  /** The author's rewrite rules on text, for every stack of quotations and every balanced continuation. */
  lemma TextRules(fuel: nat, ts: seq<string>, k: string)
    requires AllQuotations(ts) && Balanced(k)
    ensures Call(fuel, ts, "+~" + k) == Call(fuel, ts, "+" + k)
    ensures Call(fuel, ts, ">-" + k) == Call(fuel, ts, "-" + k)
    ensures Call(fuel, ts, ",-" + k) == Call(fuel, ts, "--" + k)
    ensures Call(fuel, ts, "~--" + k) == Call(fuel, ts, "--" + k)
    ensures Call(fuel, ts, "~,-" + k) == Call(fuel, ts, "--" + k)
    ensures Call(fuel, ts, "+>~>" + k) == Call(fuel, ts, ">+" + k)
    ensures fuel != 1 ==> Call(fuel, ts, "+>~" + k) == Call(fuel, ts, ">+<" + k)
    ensures fuel != 1 ==> Call(fuel, ts, ">+<>" + k) == Call(fuel, ts, ">+" + k)
  {
    if fuel > 0 {
      var f := fuel - 1;
      var ps := ParseStack(ts);
      var p := Parse(k);
      DroppingRules(f, ps, p);
      CopyRules(f, ps, p);
      hide Run, Call, Tokens;
      TextRule(f, ps, p, "+~", "+");
      TextRule(f, ps, p, ">-", "-");
      TextRule(f, ps, p, ",-", "--");
      TextRule(f, ps, p, "~--", "--");
      TextRule(f, ps, p, "~,-", "--");
      TextRule(f, ps, p, "+>~>", ">+");
      if f > 0 {
        TextRule(f, ps, p, "+>~", ">+<");
        TextRule(f, ps, p, ">+<>", ">+");
      }
    }
  }

  /**
   * Running `u` and then `x` in one text is running `x` on the stack that `u` leaves. With this the
   * laws above, stated for a stack, hold after every prefix of a program.
   */
  lemma TextSequencing(fuel: nat, ts: seq<string>, u: string, x: string)
    requires AllQuotations(ts) && Balanced(u) && Balanced(x) && Call(fuel, ts, u).Normal?
    ensures AllQuotations(Call(fuel, ts, u).stack)
    ensures Call(fuel, ts, u + x) == Call(fuel, Call(fuel, ts, u).stack, x)
  {
    StackShape(fuel, ts, u);
    var f: nat := fuel - 1;
    var ps := ParseStack(ts);
    var pu := Parse(u);
    var px := Parse(x);
    PrintAppend(pu, px);
    Sequencing(f, ps, pu, px);
    CallImplements(f, ps, pu);
    CallImplements(f, ps, Append(pu, px));
    CallImplements(f, Eval(f, ps, pu).stack, px);
  }

  /** The whole program: after any prefix that runs to its end, `(w)<q` prints what `wq` prints. */
  lemma ProgramUngroupInlines(u: string, w: string, q: string)
    requires Balanced(u) && Balanced(w) && Balanced(q) && Call(MAX_DEPTH, [], u).Normal?
    requires Call(MAX_DEPTH, [], u + ("(" + w + ")<" + q)) != TooDeep
    ensures Answer(Call(MAX_DEPTH, [], u + ("(" + w + ")<" + q))) == Answer(Call(MAX_DEPTH, [], u + (w + q)))
  {
    var pw := Parse(w);
    var pq := Parse(q);
    PrintUngroup(pw, pq);
    PrintBalanced(Quote(pw, Op('<', pq)));
    PrintAppend(pw, pq);
    PrintBalanced(Append(pw, pq));
    TextSequencing(MAX_DEPTH, [], u, "(" + w + ")<" + q);
    TextSequencing(MAX_DEPTH, [], u, w + q);
    TextUngroupInlines(MAX_DEPTH, Call(MAX_DEPTH, [], u).stack, w, q);
  }
}
