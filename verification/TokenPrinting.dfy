/** What the interpreter prints, what each operator means on text, and how deep it may nest. */
module TokenPrinting {
  import opened Arith
  import opened TokenText
  import opened Programs
  import opened TokenRefinement
  import opened TokenLaws

  // ---------- the printed text ----------

  /** A program that only pushes quotations. */
  function Quotes(ps: seq<Program>, k: Program): Program {
    if ps == [] then k else Quote(ps[0], Quotes(ps[1..], k))
  }

  lemma {:induction false} QuotesPush(fuel: nat, st: seq<Program>, ps: seq<Program>, k: Program)
    ensures Eval(fuel, st, Quotes(ps, k)) == Eval(fuel, st + ps, k)
    decreases |ps|
  {
    if ps == [] {
      assert st + ps == st;
    } else {
      QuoteUnfolds(fuel, st, ps[0], Quotes(ps[1..], k));
      QuotesPush(fuel, st + [ps[0]], ps[1..], k);
      assert st + [ps[0]] + ps[1..] == st + ps;
    }
  }

  lemma {:induction false} PrintQuotes(ps: seq<Program>, k: Program)
    ensures Print(Quotes(ps, k)) == Concat(Tokens(ps)) + Print(k)
  {
    if ps == [] {
      assert "" + Print(k) == Print(k);
    } else {
      PrintQuotes(ps[1..], k);
      QuotedPrint(ps[0]);
      assert Tokens(ps)[1..] == Tokens(ps[1..]);
      Associative(Token(ps[0]), Concat(Tokens(ps[1..])), Print(k));
    }
  }

  /** Text made of balanced quotations alone leaves them on the list, so it prints itself. */
  lemma QuotationsPrintThemselves(ts: seq<string>)
    requires AllQuotations(ts)
    ensures Call(MAX_DEPTH, [], Concat(ts)) == Normal(ts)
    ensures ts != [] ==> Answer(Call(MAX_DEPTH, [], Concat(ts))) == Some(Concat(ts))
  {
    var ps := ParseStack(ts);
    PrintQuotes(ps, End);
    QuotesPush(MAX_DEPTH - 1, [], ps, End);
    CallImplements(MAX_DEPTH - 1, [], Quotes(ps, End));
    assert [] + ps == ps && Concat(ts) + "" == Concat(ts);
  }

  /** Running the printed text again rebuilds the list a normal run ended with. */
  lemma NormalAnswerRebuilds(text: string)
    requires Call(MAX_DEPTH, [], text).Normal? && Answer(Call(MAX_DEPTH, [], text)).Some?
    ensures var r := Call(MAX_DEPTH, [], text); Call(MAX_DEPTH, [], Answer(r).value) == r
  {
    StackShape(MAX_DEPTH, [], text);
    QuotationsPrintThemselves(Call(MAX_DEPTH, [], text).stack);
  }

  /**
   * After an irreducible stop the answer is the text of the quotations below the left-over, in stack order, and
   * then the left-over; running it again leaves the same quotations and prints the same.
   */
  lemma IrreducibleAnswer(text: string) returns (k: nat)
    requires Call(MAX_DEPTH, [], text).Irreducible?
    ensures var r := Call(MAX_DEPTH, [], text);
      && LeftOverFrom(r.stack, k) && Answer(r) == Some(Concat(r.stack[..k]) + Concat(r.stack[k..]))
      && Call(MAX_DEPTH, [], Answer(r).value) == Irreducible(r.stack[..k] + [Concat(r.stack[k..])])
      && Answer(Call(MAX_DEPTH, [], Answer(r).value)) == Answer(r)
  {
    var f := MAX_DEPTH - 1;
    var r := Call(MAX_DEPTH, [], text);
    var p := Parse(text);
    CallImplements(f, [], p);
    StopsAtForeign(f, [], p);
    var o := Eval(f, [], p);
    assert Tokens([]) == [];
    k := |o.stack|;
    assert r.stack[..k] == Tokens(o.stack) && r.stack[k..] == Texts(o.rest);
    LeftOverAt(o, r.stack);
    ConcatSum(r.stack[..k], r.stack[k..]);
    assert r.stack == r.stack[..k] + r.stack[k..];
    RunLeftOver(f, o.stack, o.rest);
    ConcatTexts(o.rest);
    ConcatSum(r.stack[..k], [Concat(r.stack[k..])]);
    OneToken(Concat(r.stack[k..]));
  }

  lemma OneToken(t: string)
    ensures Concat([t]) == t
  {
    assert [t][1..] == [];
    assert t + "" == t;
  }

  lemma LeftOverAt(o: Outcome, ts: seq<string>)
    requires o.Stopped? && |o.rest| > 0 && o.rest[0].Op? && o.rest[0].c !in OPERATORS
    requires ts == Tokens(o.stack) + Texts(o.rest)
    ensures LeftOverFrom(ts, |o.stack|)
  {
    TokensAreQuotations(o.stack);
    assert ts[..|o.stack|] == Tokens(o.stack);
    assert ts[|o.stack|] == Print(o.rest[0]);
  }

  /** All the left-over programs in one. */
  function Chain(rest: seq<Program>): Program {
    if rest == [] then End else Append(rest[0], Chain(rest[1..]))
  }

  lemma {:induction false} PrintChain(rest: seq<Program>)
    ensures Print(Chain(rest)) == Joined(rest)
  {
    if rest != [] {
      PrintChain(rest[1..]);
      PrintAppend(rest[0], Chain(rest[1..]));
    }
  }

  lemma RunLeftOver(f: nat, st: seq<Program>, rest: seq<Program>)
    requires |rest| > 0 && rest[0].Op? && rest[0].c !in OPERATORS
    ensures Call(f + 1, [], Concat(Tokens(st)) + Joined(rest)) == Irreducible(Tokens(st) + [Joined(rest)])
  {
    var c := Chain(rest);
    PrintChain(rest);
    PrintQuotes(st, c);
    QuotesPush(f, [], st, c);
    assert [] + st == st && Tokens([]) == [];
    CallImplements(f, [], Quotes(st, c));
    ForeignStops(f, st, c);
  }

  lemma ForeignStops(f: nat, st: seq<Program>, p: Program)
    requires p.Op? && p.c !in OPERATORS
    ensures Shown(Eval(f, st, p)) == Irreducible(Tokens(st) + [Print(p)])
  {
    assert Eval(f, st, p) == Stopped(st, [p]);
    assert Texts([p]) == [Print(p)];
  }

  // ---------- the operators on text ----------

  function Quoted(w: string): string {
    "(" + w + ")"
  }

  lemma QuotedToken(p: Program)
    ensures Token(p) == Quoted(Print(p))
  {
  }

  lemma OpText(c: Plain, k: Program)
    ensures Print(Op(c, k)) == [c] + Print(k)
  {
  }

  /** A balanced text in parentheses goes on the list as one token. */
  lemma QuotationIsPushed(fuel: nat, ts: seq<string>, x: string, k: string)
    requires AllQuotations(ts) && Balanced(x) && Balanced(k)
    ensures Call(fuel, ts, Quoted(x) + k) == Call(fuel, ts + [Quoted(x)], k)
  {
    if fuel > 0 {
      var ps := ParseStack(ts);
      var p := Parse(x);
      var q := Parse(k);
      QuoteUnfolds(fuel - 1, ps, p, q);
      CallImplements(fuel - 1, ps, Quote(p, q));
      CallImplements(fuel - 1, ps + [p], q);
      TokensOfPush(ps, p);
      QuotedToken(p);
    }
  }

  /** What each operator but `<` does to the tokens on top of the list; the text after it runs on. */
  lemma OperatorsOnText(fuel: nat, ts: seq<string>, x: string, y: string, k: string)
    requires AllQuotations(ts) && Balanced(x) && Balanced(y) && Balanced(k)
    ensures Call(fuel, ts + [Quoted(x), Quoted(y)], "~" + k) == Call(fuel, ts + [Quoted(y), Quoted(x)], k)
    ensures Call(fuel, ts + [Quoted(x)], "+" + k) == Call(fuel, ts + [Quoted(x), Quoted(x)], k)
    ensures Call(fuel, ts + [Quoted(x)], "-" + k) == Call(fuel, ts, k)
    ensures Call(fuel, ts + [Quoted(x)], ">" + k) == Call(fuel, ts + [Quoted(Quoted(x))], k)
    ensures Call(fuel, ts + [Quoted(x), Quoted(y)], "," + k) == Call(fuel, ts + [Quoted(x + y)], k)
  {
    if fuel > 0 {
      var ps := ParseStack(ts);
      var p := Parse(x);
      var q := Parse(y);
      var n := Parse(k);
      hide Call, Tokens, Quoted;
      OneOnText(fuel - 1, ps, p, n);
      TwoOnText(fuel - 1, ps, p, q, n);
    }
  }

  lemma OneOnText(f: nat, ps: seq<Program>, p: Program, k: Program)
    ensures var ts, x, w := Tokens(ps), Quoted(Print(p)), Print(k);
      && Call(f + 1, ts + [x], "+" + w) == Call(f + 1, ts + [x, x], w)
      && Call(f + 1, ts + [x], "-" + w) == Call(f + 1, ts, w)
      && Call(f + 1, ts + [x], ">" + w) == Call(f + 1, ts + [Quoted(x)], w)
  {
    var g := Quote(p, End);
    CopyStep(f, ps, p, k);
    DropStep(f, ps, p, k);
    GroupStep(f, ps, p, k);
    PrintOfQuote(p);
    hide Call, Eval, Print, Token, Tokens, Quoted;
    assert ps + [] == ps;
    OneStep(f, ps, [p], [p, p], '+', k);
    OneStep(f, ps, [p], [], '-', k);
    OneStep(f, ps, [p], [g], '>', k);
    TokenList1(p);
    TokenList1(g);
    TokenList2(p, p);
    assert Tokens(ps) + Tokens([]) == Tokens(ps);
  }

  lemma TwoOnText(f: nat, ps: seq<Program>, p: Program, q: Program, k: Program)
    ensures var ts, x, y, w := Tokens(ps), Quoted(Print(p)), Quoted(Print(q)), Print(k);
      && Call(f + 1, ts + [x, y], "~" + w) == Call(f + 1, ts + [y, x], w)
      && Call(f + 1, ts + [x, y], "," + w) == Call(f + 1, ts + [Quoted(Print(p) + Print(q))], w)
  {
    SwapStep(f, ps, p, q, k);
    MergeStep(f, ps, p, q, k);
    hide Call, Eval, Print, Token, Tokens, Quoted;
    OneStep(f, ps, [p, q], [q, p], '~', k);
    OneStep(f, ps, [p, q], [Append(p, q)], ',', k);
    PrintAppend(p, q);
    TokenList1(Append(p, q));
    TokenList2(p, q);
    TokenList2(q, p);
  }

  lemma TokenList1(p: Program)
    ensures Tokens([p]) == [Quoted(Print(p))] && Token(p) == Quoted(Print(p))
  {
  }

  lemma TokenList2(p: Program, q: Program)
    ensures Tokens([p, q]) == [Quoted(Print(p)), Quoted(Print(q))]
  {
  }

  lemma TokensSum(a: seq<Program>, b: seq<Program>)
    ensures Tokens(a + b) == Tokens(a) + Tokens(b)
  {
  }

  /** One operator that replaces `before` on top of the stack by `after`, on text. */
  lemma OneStep(f: nat, ps: seq<Program>, before: seq<Program>, after: seq<Program>, c: Plain, k: Program)
    requires Eval(f, ps + before, Op(c, k)) == Eval(f, ps + after, k)
    ensures Call(f + 1, Tokens(ps) + Tokens(before), [c] + Print(k))
         == Call(f + 1, Tokens(ps) + Tokens(after), Print(k))
  {
    hide Call, Eval, Print, Token, Tokens;
    TokensSum(ps, before);
    TokensSum(ps, after);
    CallImplements(f, ps + before, Op(c, k));
    CallImplements(f, ps + after, k);
    OpText(c, k);
  }

  /** Where a run ends: the end of the text, an operator without its tokens, or a character that is none. */
  lemma TextEnds(fuel: nat, ts: seq<string>, c: Plain, k: string)
    requires fuel > 0 && Balanced(k)
    ensures Call(fuel, ts, "") == Normal(ts)
    ensures c in OPERATORS && |ts| < (if c in "~," then 2 else 1) ==> Call(fuel, ts, [c] + k) == Error
    ensures c !in OPERATORS ==> Call(fuel, ts, [c] + k) == Irreducible(ts + [[c] + k])
  {
    FirstAndRest(c, k);
    assert Balanced([c] + k);
  }

  // ---------- the depth limit ----------

  /** A text that opens n nested activations: `((..()<..)<)<`. */
  function NestText(n: nat): string {
    if n == 0 then "" else Quoted(NestText(n - 1)) + "<"
  }

  function Nest(n: nat): (p: Program)
    ensures Print(p) == NestText(n)
  {
    if n == 0 then End
    else
      var p := Quote(Nest(n - 1), Op('<', End));
      assert Print(Op('<', End)) == "<" by { assert "<" + "" == "<"; }
      assert Print(p) == "(" + NestText(n - 1) + ")" + "<";
      p
  }

  lemma {:induction false} NestEval(f: nat, st: seq<Program>, n: nat)
    ensures Eval(f, st, Nest(n)) == if n <= f then Done(st) else Overflow
    decreases n
  {
    if n > 0 {
      if f > 0 {
        UngroupStep(f, st, Nest(n - 1), End);
        NestEval(f - 1, st, n - 1);
      } else {
        UngroupNeedsFuel(st, Nest(n - 1), End);
      }
    }
  }

  /** An activation given `fuel` levels runs fuel - 1 nested ones inside each other and no more. */
  lemma NestingDepth(fuel: nat, ts: seq<string>, n: nat)
    requires AllQuotations(ts)
    ensures Call(fuel, ts, NestText(n)) == if n < fuel then Normal(ts) else TooDeep
  {
    if fuel > 0 {
      var ps := ParseStack(ts);
      NestEval(fuel - 1, ps, n);
      CallImplements(fuel - 1, ps, Nest(n));
    }
  }

  /** The program as built opens at most 999 activations below the first. */
  lemma DepthLimit(n: nat)
    ensures Call(MAX_DEPTH, [], NestText(n)) == if n <= 999 then Normal([]) else TooDeep
  {
    NestingDepth(MAX_DEPTH, [], n);
  }
}
