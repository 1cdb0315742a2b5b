/**
 * The same language on trees: a program is a list of operations and quotations, and the stack
 * holds quoted programs. The text interpreter is proved to implement this semantics.
 */
module Programs {
  import opened Arith
  import opened TokenText

  type Plain = c: char | c != '(' && c != ')' witness '~'

  datatype Program =
    | End
    | Op(c: Plain, next: Program)
    | Quote(body: Program, next: Program)

  /** `rest` lists what was still to be run, innermost activation first. */
  datatype Outcome =
    | Failed
    | Overflow
    | Done(stack: seq<Program>)
    | Stopped(stack: seq<Program>, rest: seq<Program>)

  function Append(p: Program, q: Program): Program {
    match p
    case End => q
    case Op(c, n) => Op(c, Append(n, q))
    case Quote(b, n) => Quote(b, Append(n, q))
  }

  function Print(p: Program): string {
    match p
    case End => ""
    case Op(c, n) => [c] + Print(n)
    case Quote(b, n) => "(" + Print(b) + ")" + Print(n)
  }

  function Remainder(p: Program): seq<Program> {
    if p == End then [] else [p]
  }

  function Eval(fuel: nat, st: seq<Program>, p: Program): Outcome
    decreases fuel, p, 0
  {
    var n := |st|;
    match p
    case End => Done(st)
    case Quote(b, next) => Eval(fuel, st + [b], next)
    case Op(c, next) =>
      match c
      case '~' => if n < 2 then Failed else Eval(fuel, st[..n - 2] + [st[n - 1], st[n - 2]], next)
      case '+' => if n < 1 then Failed else Eval(fuel, st + [st[n - 1]], next)
      case '-' => if n < 1 then Failed else Eval(fuel, st[..n - 1], next)
      case '>' => if n < 1 then Failed else Eval(fuel, st[..n - 1] + [Quote(st[n - 1], End)], next)
      case ',' => if n < 2 then Failed else Eval(fuel, st[..n - 2] + [Append(st[n - 2], st[n - 1])], next)
      case '<' =>
        if n < 1 then Failed
        else if fuel == 0 then Overflow
        else After(fuel, Eval(fuel - 1, st[..n - 1], st[n - 1]), next)
      case _ => Stopped(st, [p])
  }

  /** Go on with `p` if the nested run came to its end; note it as left over if that one stopped. */
  function After(fuel: nat, o: Outcome, p: Program): Outcome
    decreases fuel, p, 1
  {
    match o
    case Failed => Failed
    case Overflow => Overflow
    case Done(s) => Eval(fuel, s, p)
    case Stopped(s, rest) => Stopped(s, rest + Remainder(p))
  }

  // ---------- printing and parsing ----------

  lemma {:induction false} PrintAppend(p: Program, q: Program)
    ensures Print(Append(p, q)) == Print(p) + Print(q)
  {
    match p
    case End =>
    case Op(c, n) =>
      PrintAppend(n, q);
      Associative([c], Print(n), Print(q));
    case Quote(b, n) =>
      PrintAppend(n, q);
      Associative("(" + Print(b) + ")", Print(n), Print(q));
  }

  lemma Associative(a: string, b: string, c: string)
    ensures a + (b + c) == a + b + c
  {
  }

  lemma FirstAndRest(c: char, w: string)
    ensures ([c] + w)[0] == c && ([c] + w)[1..] == w && [c] + w != []
  {
  }

  lemma QuoteText(b: string, n: string, s: string)
    ensures "(" + b + ")" + n + s == "(" + (b + (")" + (n + s)))
  {
  }

  /** A printed program leaves the depth where it was. */
  lemma {:induction false} PrintKeepsDepth(p: Program, s: string, d: nat)
    ensures Depth(Print(p) + s, d) == Depth(s, d)
    decreases p
  {
    match p
    case End =>
      assert Print(p) + s == s;
    case Op(c, n) =>
      PrintKeepsDepth(n, s, d);
      Associative([c], Print(n), s);
      FirstAndRest(c, Print(n) + s);
    case Quote(b, n) =>
      PrintKeepsDepth(n, s, d);
      var tail := ")" + (Print(n) + s);
      PrintKeepsDepth(b, tail, d + 1);
      QuoteText(Print(b), Print(n), s);
      FirstAndRest('(', Print(b) + tail);
      FirstAndRest(')', Print(n) + s);
  }

  lemma PrintBalanced(p: Program)
    ensures Balanced(Print(p))
  {
    PrintKeepsDepth(p, "", 0);
    assert Print(p) + "" == Print(p);
  }

  lemma CloseStep(c: char, w: string, d: nat)
    requires d > 0
    ensures Close([c] + w, d) ==
      if c == ')' && d == 1 then Some(0)
      else
        var r := Close(w, if c == '(' then d + 1 else if c == ')' then d - 1 else d);
        if r.Some? then Some(r.value + 1) else None
  {
    FirstAndRest(c, w);
  }

  /** The search for the closing parenthesis passes over a printed program. */
  lemma {:induction false} CloseSkips(p: Program, s: string, d: nat)
    requires d > 0
    ensures var r := Close(s, d);
            Close(Print(p) + s, d) == if r.Some? then Some(|Print(p)| + r.value) else None
    decreases p
  {
    hide Close;
    match p
    case End =>
      assert Print(p) + s == s;
    case Op(c, n) =>
      CloseSkips(n, s, d);
      Associative([c], Print(n), s);
      CloseStep(c, Print(n) + s, d);
    case Quote(b, n) =>
      CloseSkips(n, s, d);
      var tail := ")" + (Print(n) + s);
      CloseSkips(b, tail, d + 1);
      QuoteText(Print(b), Print(n), s);
      CloseStep('(', Print(b) + tail, d);
      CloseStep(')', Print(n) + s, d + 1);
  }

  /** Programs separated by closing parentheses. */
  function PrintAll(ps: seq<Program>): string
    requires |ps| > 0
  {
    if |ps| == 1 then Print(ps[0]) else Print(ps[0]) + ")" + PrintAll(ps[1..])
  }

  /** Text that closes `d` parentheses splits into d + 1 programs. */
  lemma {:induction false} ParseAll(w: string, d: nat) returns (ps: seq<Program>)
    requires Depth(w, d) == Some(0)
    ensures |ps| == d + 1 && PrintAll(ps) == w
  {
    if w == [] {
      ps := [End];
    } else if w[0] == '(' {
      var qs := ParseAll(w[1..], d + 1);
      ps := [Quote(qs[0], qs[1])] + qs[2..];
      assert w == "(" + w[1..];
      assert qs[1..][1..] == qs[2..] && ps[1..] == qs[2..];
    } else if w[0] == ')' {
      var qs := ParseAll(w[1..], d - 1);
      ps := [End] + qs;
      assert w == ")" + w[1..];
      assert ps[1..] == qs;
    } else {
      var qs := ParseAll(w[1..], d);
      ps := [Op(w[0], qs[0])] + qs[1..];
      assert w == [w[0]] + w[1..];
      assert ps[1..] == qs[1..];
    }
  }

  /** Every balanced text is a printed program. */
  lemma Parse(w: string) returns (p: Program)
    requires Balanced(w)
    ensures Print(p) == w
  {
    var ps := ParseAll(w, 0);
    p := ps[0];
  }
}
