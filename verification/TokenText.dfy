/** What the stack-language interpreter does to a stack of text tokens. */
module TokenText {
  import opened Arith

  const MAX_DEPTH: nat := 1000

  /** One activation's outcome; the source reports TooDeep as a plain error. */
  datatype Result =
    | Error
    | TooDeep
    | Normal(stack: seq<string>)
    | Irreducible(stack: seq<string>)

  /** The parenthesis depth after `w`, starting from `d`; None when a `)` has no partner. */
  function Depth(w: string, d: nat): Option<nat> {
    if w == [] then Some(d)
    else if w[0] == '(' then Depth(w[1..], d + 1)
    else if w[0] == ')' then if d == 0 then None else Depth(w[1..], d - 1)
    else Depth(w[1..], d)
  }

  predicate Balanced(w: string) {
    Depth(w, 0) == Some(0)
  }

  /** The index of the `)` that closes `d` open parentheses. */
  function Close(w: string, d: nat): (r: Option<nat>)
    requires d > 0
    ensures r.Some? ==> r.value < |w|
  {
    if w == [] then None
    else if w[0] == ')' && d == 1 then Some(0)
    else
      var rest := Close(w[1..], if w[0] == '(' then d + 1 else if w[0] == ')' then d - 1 else d);
      if rest.Some? then Some(rest.value + 1) else None
  }

  predicate IsParenthesized(t: string) {
    |t| > 0 && t[0] == '(' && t[|t| - 1] == ')'
  }

  function Top(st: seq<string>): string
    requires |st| > 0
  {
    st[|st| - 1]
  }

  function Below(st: seq<string>): seq<string>
    requires |st| > 0
  {
    st[..|st| - 1]
  }

  /** Stopping: whatever is left of the source becomes the last token. */
  function Stop(st: seq<string>, w: string): Result {
    Irreducible(if w == [] then st else st + [w])
  }

  /** One activation of the interpreter that may open `fuel` - 1 further nested ones. */
  function Call(fuel: nat, st: seq<string>, w: string): Result
    decreases fuel, 0, 0
  {
    if fuel == 0 then TooDeep
    else if !Balanced(w) then Error
    else Exec(fuel - 1, st, w)
  }

  /** The main loop from the point where `w` is still to be read. */
  function Exec(fuel: nat, st: seq<string>, w: string): Result
    decreases fuel, 1, |w|
  {
    if w == [] then Normal(st)
    else
      match w[0]
      case '(' =>
        var j := Close(w[1..], 1);
        if j.None? then Error else Exec(fuel, st + [w[..j.value + 2]], w[j.value + 2..])
      case ')' => Error
      case '~' =>
        if |st| < 2 then Error
        else Exec(fuel, st[..|st| - 2] + [st[|st| - 1], st[|st| - 2]], w[1..])
      case '+' => if |st| == 0 then Error else Exec(fuel, st + [Top(st)], w[1..])
      case '-' => if |st| == 0 then Error else Exec(fuel, Below(st), w[1..])
      case '<' =>
        if |st| == 0 then Error
        else if !IsParenthesized(Top(st)) then Stop(st, w)
        else
          (match Call(fuel, Below(st), Inside(Top(st)))
          case Error => Error
          case TooDeep => TooDeep
          case Normal(s) => Exec(fuel, s, w[1..])
          case Irreducible(s) => Stop(s, w[1..]))
      case '>' => if |st| == 0 then Error else Exec(fuel, Below(st) + ["(" + Top(st) + ")"], w[1..])
      case ',' =>
        if |st| < 2 then Error
        else if !IsParenthesized(st[|st| - 2]) || !IsParenthesized(Top(st)) then Stop(st, w)
        else Exec(fuel, st[..|st| - 2] + [Merged(st[|st| - 2], Top(st))], w[1..])
      case _ => Stop(st, w)
  }

  /** A token without its first and last character. */
  function Inside(t: string): string
    requires IsParenthesized(t)
  {
    t[1..|t| - 1]
  }

  function Merged(left: string, right: string): string
    requires IsParenthesized(left) && IsParenthesized(right)
  {
    left[..|left| - 1] + right[1..]
  }

  function Concat(ts: seq<string>): string {
    if ts == [] then "" else ts[0] + Concat(ts[1..])
  }

  /** The text the program prints, or None where it returns a null token. */
  function Answer(r: Result): Option<string> {
    if (r.Normal? || r.Irreducible?) && |r.stack| > 0 then Some(Concat(r.stack)) else None
  }

  function TotalLength(ts: seq<string>): nat {
    if ts == [] then 0 else |ts[0]| + TotalLength(ts[1..])
  }

  /** The tokens lie one after the other in `v`, each at the end of those before it, and nothing else does. */
  predicate Laid(v: string, ts: seq<string>) {
    |v| == TotalLength(ts) &&
    forall i :: 0 <= i < |ts| ==> TokenAt(v, ts, i)
  }

  predicate TokenAt(v: string, ts: seq<string>, i: nat)
    requires i < |ts|
  {
    var at := TotalLength(ts[..i]);
    at + |ts[i]| <= |v| && v[at..at + |ts[i]|] == ts[i]
  }

  lemma {:induction false} ConcatLaid(ts: seq<string>)
    ensures Laid(Concat(ts), ts)
  {
    if ts != [] {
      var rest := ts[1..];
      ConcatLaid(rest);
      forall i | 0 <= i < |ts| ensures TokenAt(Concat(ts), ts, i) {
        if i == 0 {
          assert ts[..0] == [];
        } else {
          assert TokenAt(Concat(rest), rest, i - 1);
          TokenShifts(Concat(rest), ts, i);
        }
      }
    }
  }

  lemma TokenShifts(v: string, ts: seq<string>, i: nat)
    requires 0 < i < |ts| && TokenAt(v, ts[1..], i - 1)
    ensures TokenAt(ts[0] + v, ts, i)
  {
    assert ts[..i][1..] == ts[1..][..i - 1] && ts[..i][0] == ts[0];
    var at := TotalLength(ts[1..][..i - 1]);
    assert TotalLength(ts[..i]) == |ts[0]| + at;
    hide TotalLength;
    assert (ts[0] + v)[|ts[0]| + at..|ts[0]| + at + |ts[i]|] == v[at..at + |ts[i]|];
  }

  /** A null token exactly on failure and on an empty list; otherwise all tokens in stack order. */
  lemma AnswerLaysTokens(r: Result)
    ensures Answer(r) == None <==> r.Error? || r.TooDeep? || r.stack == []
    ensures Answer(r).Some? ==> Laid(Answer(r).value, r.stack)
  {
    if r.Normal? || r.Irreducible? {
      ConcatLaid(r.stack);
    }
  }

  /** A token that is one balanced quotation. */
  predicate IsQuotation(t: string) {
    IsParenthesized(t) && Balanced(Inside(t))
  }

  predicate AllQuotations(ts: seq<string>) {
    forall i :: 0 <= i < |ts| ==> IsQuotation(ts[i])
  }

  /**
   * The run of `Exec` from here on takes regular arms only: every stack on the way holds one balanced
   * quotation a token, no `)` is met, every `(` is closed, and `<` and `,` find parenthesised
   * tokens. Nested activations are followed.
   */
  predicate Regular(fuel: nat, st: seq<string>, w: string)
    decreases fuel, 1, |w|
  {
    && AllQuotations(st)
    && (w == [] ||
        match w[0]
        case '(' =>
          var j := Close(w[1..], 1);
          j.Some? && Regular(fuel, st + [w[..j.value + 2]], w[j.value + 2..])
        case ')' => false
        case '~' => |st| < 2 || Regular(fuel, st[..|st| - 2] + [st[|st| - 1], st[|st| - 2]], w[1..])
        case '+' => |st| == 0 || Regular(fuel, st + [Top(st)], w[1..])
        case '-' => |st| == 0 || Regular(fuel, Below(st), w[1..])
        case '<' =>
          |st| == 0 ||
          (IsParenthesized(Top(st)) && RegularCall(fuel, Below(st), Inside(Top(st)))
           && (var r := Call(fuel, Below(st), Inside(Top(st)));
               r.Normal? ==> Regular(fuel, r.stack, w[1..])))
        case '>' => |st| == 0 || Regular(fuel, Below(st) + ["(" + Top(st) + ")"], w[1..])
        case ',' =>
          |st| < 2 ||
          (IsParenthesized(st[|st| - 2]) && IsParenthesized(Top(st))
           && Regular(fuel, st[..|st| - 2] + [Merged(st[|st| - 2], Top(st))], w[1..]))
        case _ => true)
  }

  /** A nested activation is regular: its text passes the early check, unless the depth limit comes first. */
  predicate RegularCall(fuel: nat, st: seq<string>, w: string)
    decreases fuel, 0, 0
  {
    fuel == 0 || (Balanced(w) && Regular(fuel - 1, st, w))
  }
}
