/** The text interpreter implements the tree semantics. */
module TokenRefinement {
  import opened Arith
  import opened TokenText
  import opened Programs

  /** How a quoted program lies on the text stack. */
  function Token(p: Program): (t: string)
    ensures IsParenthesized(t) && Inside(t) == Print(p)
  {
    var t := "(" + Print(p) + ")";
    assert t[1..|t| - 1] == Print(p);
    t
  }

  function Tokens(ps: seq<Program>): (ts: seq<string>)
    ensures |ts| == |ps| && forall i :: 0 <= i < |ps| ==> ts[i] == Token(ps[i])
  {
    seq(|ps|, i requires 0 <= i < |ps| => Token(ps[i]))
  }

  function Texts(ps: seq<Program>): (ts: seq<string>)
    ensures |ts| == |ps| && forall i :: 0 <= i < |ps| ==> ts[i] == Print(ps[i])
  {
    seq(|ps|, i requires 0 <= i < |ps| => Print(ps[i]))
  }

  /** The text form of an outcome. */
  function Shown(o: Outcome): Result {
    match o
    case Failed => Error
    case Overflow => TooDeep
    case Done(s) => Normal(Tokens(s))
    case Stopped(s, rest) => Irreducible(Tokens(s) + Texts(rest))
  }

  lemma MergedTokens(p: Program, q: Program)
    ensures Merged(Token(p), Token(q)) == Token(Append(p, q))
  {
    PrintAppend(p, q);
    JoinTexts(Print(p), Print(q));
  }

  lemma JoinTexts(a: string, b: string)
    ensures ("(" + a + ")")[..|a| + 1] + ("(" + b + ")")[1..] == "(" + (a + b) + ")"
  {
    assert ("(" + a + ")")[..|a| + 1] == "(" + a;
    assert ("(" + b + ")")[1..] == b + ")";
    assert "(" + a + (b + ")") == "(" + (a + b) + ")";
  }

  lemma PrintOfQuote(p: Program)
    ensures Print(Quote(p, End)) == Token(p)
  {
    assert Token(p) + "" == Token(p);
  }

  /** Reading a quotation off the source finds its own closing parenthesis. */
  lemma QuoteRead(b: Program, n: Program)
    ensures var w := Print(Quote(b, n));
      && w != [] && w[0] == '('
      && Close(w[1..], 1) == Some(|Print(b)|)
      && w[..|Print(b)| + 2] == Token(b) && w[|Print(b)| + 2..] == Print(n)
  {
    CloseSkips(b, ")" + Print(n), 1);
    SplitQuote(Print(b), Print(n));
  }

  lemma SplitQuote(b: string, n: string)
    ensures var w := "(" + b + ")" + n;
            w[1..] == b + (")" + n) && w[..|b| + 2] == "(" + b + ")" && w[|b| + 2..] == n
  {
  }

  lemma OpRead(c: Plain, n: Program)
    ensures var w := Print(Op(c, n)); w != [] && w[0] == c && w[1..] == Print(n)
  {
  }

  lemma PrintEmpty(p: Program)
    ensures Print(p) == [] <==> p == End
  {
  }

  lemma StopShown(s: seq<Program>, rest: seq<Program>, p: Program)
    ensures Stop(Tokens(s) + Texts(rest), Print(p)) == Shown(Stopped(s, rest + Remainder(p)))
  {
    PrintEmpty(p);
    assert Texts(rest + Remainder(p)) == Texts(rest) + Texts(Remainder(p));
    if p != End {
      assert Tokens(s) + Texts(rest) + [Print(p)] == Tokens(s) + (Texts(rest) + [Print(p)]);
    } else {
      assert rest + [] == rest;
    }
  }

  lemma TokensOfPush(st: seq<Program>, b: Program)
    ensures Tokens(st + [b]) == Tokens(st) + [Token(b)]
  {
  }

  lemma TokensOfPop(st: seq<Program>)
    requires |st| >= 1
    ensures Tokens(st[..|st| - 1]) == Below(Tokens(st)) && Top(Tokens(st)) == Token(st[|st| - 1])
  {
  }

  /** Replace the top token. */
  lemma TokensOfReplace(st: seq<Program>, b: Program)
    requires |st| >= 1
    ensures Tokens(st[..|st| - 1] + [b]) == Below(Tokens(st)) + [Token(b)]
  {
  }

  /**
   * The interpreter on text and the semantics on programs agree step for step, for every stack of
   * quotations and every program.
   */
  lemma {:induction false} ExecImplements(fuel: nat, st: seq<Program>, p: Program)
    ensures Exec(fuel, Tokens(st), Print(p)) == Shown(Eval(fuel, st, p))
    decreases fuel, p, 0
  {
    hide Tokens, Texts, Token;
    match p
    case End =>
    case Quote(b, next) =>
      QuoteRead(b, next);
      TokensOfPush(st, b);
      ExecImplements(fuel, st + [b], next);
    case Op(c, next) =>
      OpRead(c, next);
      OpImplements(fuel, st, c, next);
  }

  lemma {:induction false} OpImplements(fuel: nat, st: seq<Program>, c: Plain, next: Program)
    ensures Exec(fuel, Tokens(st), Print(Op(c, next))) == Shown(Eval(fuel, st, Op(c, next)))
    decreases fuel, next, 2
  {
    hide Token, Tokens, Texts;
    OpRead(c, next);
    if c == '<' {
      if |st| >= 1 {
        UngroupImplements(fuel, st, next);
      }
    } else if c == '~' || c == ',' {
      if |st| >= 2 {
        PairImplements(fuel, st, c, next);
      }
    } else if c == '+' || c == '-' || c == '>' {
      if |st| >= 1 {
        TopImplements(fuel, st, c, next);
      }
    } else {
      assert Texts([Op(c, next)]) == [Print(Op(c, next))];
    }
  }

  lemma {:induction false} PairImplements(fuel: nat, st: seq<Program>, c: Plain, next: Program)
    requires |st| >= 2 && (c == '~' || c == ',')
    ensures Exec(fuel, Tokens(st), Print(Op(c, next))) == Shown(Eval(fuel, st, Op(c, next)))
    decreases fuel, next, 1
  {
    hide Token, Tokens, Texts;
    var n := |st|;
    var rest, x, y := st[..n - 2], st[n - 2], st[n - 1];
    OpRead(c, next);
    assert Tokens(rest) == Tokens(st)[..n - 2];
    if c == '~' {
      TokensOfPush(rest, y);
      TokensOfPush(rest + [y], x);
      assert rest + [y] + [x] == rest + [y, x];
      assert Tokens(rest) + [Token(y)] + [Token(x)] == Tokens(rest) + [Token(y), Token(x)];
      ExecImplements(fuel, rest + [y, x], next);
    } else {
      MergedTokens(x, y);
      TokensOfPush(rest, Append(x, y));
      ExecImplements(fuel, rest + [Append(x, y)], next);
    }
  }

  lemma {:induction false} TopImplements(fuel: nat, st: seq<Program>, c: Plain, next: Program)
    requires |st| >= 1 && (c == '+' || c == '-' || c == '>')
    ensures Exec(fuel, Tokens(st), Print(Op(c, next))) == Shown(Eval(fuel, st, Op(c, next)))
    decreases fuel, next, 1
  {
    hide Token, Tokens, Texts;
    var x := st[|st| - 1];
    OpRead(c, next);
    TokensOfPop(st);
    if c == '+' {
      TokensOfPush(st, x);
      ExecImplements(fuel, st + [x], next);
    } else if c == '-' {
      ExecImplements(fuel, st[..|st| - 1], next);
    } else {
      PrintOfQuote(x);
      QuotedPrint(Quote(x, End));
      TokensOfReplace(st, Quote(x, End));
      ExecImplements(fuel, st[..|st| - 1] + [Quote(x, End)], next);
    }
  }

  lemma QuotedPrint(p: Program)
    ensures Token(p) == "(" + Print(p) + ")"
  {
  }

  lemma {:induction false} UngroupImplements(fuel: nat, st: seq<Program>, next: Program)
    requires |st| >= 1
    ensures Exec(fuel, Tokens(st), Print(Op('<', next))) == Shown(Eval(fuel, st, Op('<', next)))
    decreases fuel, next, 1
  {
    hide Token, Tokens, Texts;
    var n := |st|;
    var body := st[n - 1];
    OpRead('<', next);
    TokensOfPop(st);
    if fuel > 0 {
      PrintBalanced(body);
      ExecImplements(fuel - 1, st[..n - 1], body);
      var o := Eval(fuel - 1, st[..n - 1], body);
      match o
      case Failed =>
      case Overflow =>
      case Done(s) => ExecImplements(fuel, s, next);
      case Stopped(s, rest) => StopShown(s, rest, next);
    }
  }

  // ---------- the irregular arms are never taken ----------

  lemma TokenIsQuotation(p: Program)
    ensures IsQuotation(Token(p))
  {
    PrintBalanced(p);
  }

  lemma TokensAreQuotations(ps: seq<Program>)
    ensures AllQuotations(Tokens(ps))
  {
    forall i | 0 <= i < |ps| ensures IsQuotation(Tokens(ps)[i]) {
      TokenIsQuotation(ps[i]);
    }
  }

  /** A run on quotations takes regular arms only, in nested activations too. */
  lemma {:induction false} RunsAreRegular(fuel: nat, st: seq<Program>, p: Program)
    ensures Regular(fuel, Tokens(st), Print(p))
    decreases fuel, p, 0
  {
    hide Token, Tokens, Texts, AllQuotations;
    TokensAreQuotations(st);
    match p
    case End =>
    case Quote(b, next) =>
      QuoteRead(b, next);
      TokensOfPush(st, b);
      RunsAreRegular(fuel, st + [b], next);
    case Op(c, next) =>
      OpRead(c, next);
      if c == '<' && |st| >= 1 {
        UngroupIsRegular(fuel, st, next);
      } else if (c == '~' || c == ',') && |st| >= 2 {
        PairIsRegular(fuel, st, c, next);
      } else if (c == '+' || c == '-' || c == '>') && |st| >= 1 {
        TopIsRegular(fuel, st, c, next);
      }
  }

  lemma {:induction false} PairIsRegular(fuel: nat, st: seq<Program>, c: Plain, next: Program)
    requires |st| >= 2 && (c == '~' || c == ',')
    ensures Regular(fuel, Tokens(st), Print(Op(c, next)))
    decreases fuel, next, 1
  {
    hide Token, Tokens, Texts, AllQuotations;
    var n := |st|;
    var rest, x, y := st[..n - 2], st[n - 2], st[n - 1];
    OpRead(c, next);
    TokensAreQuotations(st);
    assert Tokens(rest) == Tokens(st)[..n - 2];
    if c == '~' {
      TokensOfPush(rest, y);
      TokensOfPush(rest + [y], x);
      assert rest + [y] + [x] == rest + [y, x];
      assert Tokens(rest) + [Token(y)] + [Token(x)] == Tokens(rest) + [Token(y), Token(x)];
      RunsAreRegular(fuel, rest + [y, x], next);
    } else {
      MergedTokens(x, y);
      TokensOfPush(rest, Append(x, y));
      RunsAreRegular(fuel, rest + [Append(x, y)], next);
    }
  }

  lemma {:induction false} TopIsRegular(fuel: nat, st: seq<Program>, c: Plain, next: Program)
    requires |st| >= 1 && (c == '+' || c == '-' || c == '>')
    ensures Regular(fuel, Tokens(st), Print(Op(c, next)))
    decreases fuel, next, 1
  {
    hide Token, Tokens, Texts, AllQuotations;
    var x := st[|st| - 1];
    OpRead(c, next);
    TokensAreQuotations(st);
    TokensOfPop(st);
    if c == '+' {
      TokensOfPush(st, x);
      RunsAreRegular(fuel, st + [x], next);
    } else if c == '-' {
      RunsAreRegular(fuel, st[..|st| - 1], next);
    } else {
      PrintOfQuote(x);
      QuotedPrint(Quote(x, End));
      TokensOfReplace(st, Quote(x, End));
      RunsAreRegular(fuel, st[..|st| - 1] + [Quote(x, End)], next);
    }
  }

  lemma {:induction false} UngroupIsRegular(fuel: nat, st: seq<Program>, next: Program)
    requires |st| >= 1
    ensures Regular(fuel, Tokens(st), Print(Op('<', next)))
    decreases fuel, next, 1
  {
    hide Token, Tokens, Texts, AllQuotations;
    var rest, body := st[..|st| - 1], st[|st| - 1];
    OpRead('<', next);
    TokensAreQuotations(st);
    TokensOfPop(st);
    PrintBalanced(body);
    if fuel > 0 {
      RunsAreRegular(fuel - 1, rest, body);
      ExecImplements(fuel - 1, rest, body);
      var o := Eval(fuel - 1, rest, body);
      if o.Done? {
        RunsAreRegular(fuel, o.stack, next);
      }
    }
  }
}
