/** The interpreter as the source runs it: loops over the text, a token list updated in place. */
module Interpreter {
  import opened Arith
  import opened TokenText

  datatype ParseResult = ErrorParse | NormalParse | IrreducibleParse

  /** The list and the returned code after an activation with outcome `r`. */
  predicate Reports(result: ParseResult, tokens: seq<string>, r: Result) {
    match r
    case Error => result == ErrorParse
    case TooDeep => result == ErrorParse
    case Normal(s) => result == NormalParse && tokens == s
    case Irreducible(s) => result == IrreducibleParse && tokens == s
  }

  /** A fresh buffer that starts with the given text, as `malloc` or `realloc` leave it. */
  method Allocate(text: string, size: nat) returns (buffer: array<char>)
    requires |text| <= size
    ensures fresh(buffer) && buffer.Length == size && buffer[..|text|] == text
  {
    buffer := new char[size](i => ' ');
    var i := 0;
    while i < |text|
      invariant 0 <= i <= |text| && buffer[..i] == text[..i]
    {
      buffer[i] := text[i];
      i := i + 1;
    }
  }

  /** Ungroup: shift the buffer down by one and drop two characters. */
  method ShiftOut(buffer: array<char>) returns (newSize: nat)
    requires buffer.Length >= 2
    modifies buffer
    ensures newSize == buffer.Length - 2
    ensures buffer[..newSize] == old(buffer[1..buffer.Length - 1])
  {
    newSize := buffer.Length - 2;
    var i := 0;
    while i < newSize
      invariant 0 <= i <= newSize
      invariant forall k :: 0 <= k < i ==> buffer[k] == old(buffer[k + 1])
      invariant forall k :: i <= k < buffer.Length ==> buffer[k] == old(buffer[k])
    {
      buffer[i] := buffer[i + 1];
      i := i + 1;
    }
  }

  /** Group: shift the old text up by one, last character first, and add the parentheses. */
  method ShiftIn(buffer: array<char>)
    requires buffer.Length >= 2
    modifies buffer
    ensures buffer[..] == "(" + old(buffer[..buffer.Length - 2]) + ")"
  {
    var writeOffset := buffer.Length - 1;
    buffer[writeOffset] := ')';
    writeOffset := writeOffset - 1;
    while writeOffset != 0
      invariant 0 <= writeOffset <= buffer.Length - 2
      invariant forall k :: 0 <= k <= writeOffset && k < buffer.Length - 2 ==> buffer[k] == old(buffer[k])
      invariant forall k :: writeOffset < k < buffer.Length - 1 ==> buffer[k] == old(buffer[k - 1])
      invariant buffer[buffer.Length - 1] == ')'
      decreases writeOffset
    {
      buffer[writeOffset] := buffer[writeOffset - 1];
      writeOffset := writeOffset - 1;
    }
    buffer[0] := '(';
  }

  /** Merge: overwrite the closing parenthesis of the left text with the right one's tail. */
  method CopyTail(buffer: array<char>, oldSize: nat, right: string)
    requires 1 <= oldSize && 1 <= |right| && buffer.Length == oldSize + |right| - 2
    modifies buffer
    ensures buffer[..] == old(buffer[..oldSize - 1]) + right[1..]
  {
    var k := 0;
    while k < |right| - 1
      invariant 0 <= k <= |right| - 1
      invariant buffer[..oldSize - 1 + k] == old(buffer[..oldSize - 1]) + right[1..k + 1]
    {
      buffer[oldSize - 1 + k] := right[1 + k];
      k := k + 1;
    }
  }

  /** The early pass: reject text whose parentheses do not match before running any of it. */
  method CheckBalance(source: string) returns (ok: bool)
    ensures ok <==> Balanced(source)
  {
    var parenDepth: nat := 0;
    var i := 0;
    while i < |source|
      invariant 0 <= i <= |source|
      invariant Depth(source[i..], parenDepth) == Depth(source, 0)
    {
      assert source[i..][1..] == source[i + 1..];
      if source[i] == '(' {
        parenDepth := parenDepth + 1;
      } else if source[i] == ')' {
        if parenDepth == 0 {
          return false;
        }
        parenDepth := parenDepth - 1;
      }
      i := i + 1;
    }
    ok := parenDepth == 0;
  }

  /** The search for the parenthesis that closes the one at `i`. */
  method FindClose(source: string, i: nat) returns (j: nat)
    requires i < |source|
    ensures var r := Close(source[i + 1..], 1);
            if r.Some? then j == i + 1 + r.value && j < |source| else j == |source|
  {
    var parenDepth: nat := 1;
    j := i + 1;
    while j < |source|
      invariant i + 1 <= j <= |source| && parenDepth > 0
      invariant var r, s := Close(source[i + 1..], 1), Close(source[j..], parenDepth);
                if s.Some? then r == Some(j - i - 1 + s.value) else r == None
    {
      assert source[j..][1..] == source[j + 1..];
      if source[j] == '(' {
        parenDepth := parenDepth + 1;
      } else if source[j] == ')' {
        parenDepth := parenDepth - 1;
        if parenDepth == 0 {
          return;
        }
      }
      j := j + 1;
    }
  }

  /** The text between the parentheses of a token, as the shifted buffer holds it. */
  method TakeInside(token: string) returns (inside: string)
    requires IsParenthesized(token)
    ensures inside == Inside(token)
  {
    var buffer := Allocate(token, |token|);
    var newSize := ShiftOut(buffer);
    inside := buffer[..newSize];
  }

  lemma CallUnfolds(fuel: nat, st: seq<string>, w: string)
    ensures Call(fuel, st, w) == if fuel == 0 then TooDeep else if !Balanced(w) then Error else Exec(fuel - 1, st, w)
  {
  }

  /** What is left of the specification's run when the loop stands at `i`. */
  function Rest(fuel: nat, st: seq<string>, source: string, i: nat): Result
    requires i <= |source|
  {
    Exec(fuel, st, source[i..])
  }

  lemma RestEnds(fuel: nat, st: seq<string>, source: string)
    ensures Rest(fuel, st, source, |source|) == Normal(st)
    ensures Rest(fuel, st, source, 0) == Exec(fuel, st, source)
  {
    assert source[|source|..] == [] && source[0..] == source;
  }

  /** One turn of the loop: a quotation, a stray parenthesis, or a character that stops. */
  lemma RestOfText(fuel: nat, st: seq<string>, source: string, i: nat)
    requires i < |source|
    ensures source[i] == '(' ==>
      var r := Close(source[i + 1..], 1);
      Rest(fuel, st, source, i) ==
        if r.None? then Error
        else Rest(fuel, st + [source[i..i + r.value + 2]], source, i + r.value + 2)
    ensures source[i] == ')' ==> Rest(fuel, st, source, i) == Error
    ensures source[i] !in "()~+-<>," ==> Rest(fuel, st, source, i) == Stop(st, source[i..])
  {
    var w := source[i..];
    assert w[1..] == source[i + 1..];
    if source[i] == '(' {
      var r := Close(w[1..], 1);
      if r.Some? {
        assert w[..r.value + 2] == source[i..i + r.value + 2] && w[r.value + 2..] == source[i + r.value + 2..];
      }
    }
  }

  /** One turn of the loop on an operator other than `<`. */
  lemma RestOfOperator(fuel: nat, st: seq<string>, source: string, i: nat)
    requires i < |source|
    ensures var n, e := |st|, Rest(fuel, st, source, i);
      && (source[i] == '~' ==> e == if n < 2 then Error
            else Rest(fuel, st[..n - 2] + [st[n - 1], st[n - 2]], source, i + 1))
      && (source[i] == '+' ==> e == if n == 0 then Error else Rest(fuel, st + [Top(st)], source, i + 1))
      && (source[i] == '-' ==> e == if n == 0 then Error else Rest(fuel, Below(st), source, i + 1))
      && (source[i] == '>' ==> e == if n == 0 then Error
            else Rest(fuel, Below(st) + ["(" + Top(st) + ")"], source, i + 1))
      && (source[i] == ',' ==> e == if n < 2 then Error
            else if !IsParenthesized(st[n - 2]) || !IsParenthesized(Top(st)) then Stop(st, source[i..])
            else Rest(fuel, st[..n - 2] + [Merged(st[n - 2], Top(st))], source, i + 1))
  {
    assert source[i..][1..] == source[i + 1..];
  }

  /** One turn of the loop on `<`. */
  lemma RestOfUngroup(fuel: nat, st: seq<string>, source: string, i: nat)
    requires i < |source| && source[i] == '<'
    ensures |st| == 0 ==> Rest(fuel, st, source, i) == Error
    ensures |st| > 0 && !IsParenthesized(Top(st)) ==> Rest(fuel, st, source, i) == Stop(st, source[i..])
    ensures |st| > 0 && IsParenthesized(Top(st)) ==>
      var r, e := Call(fuel, Below(st), Inside(Top(st))), Rest(fuel, st, source, i);
      && (r.Error? || r.TooDeep? ==> e == r)
      && (r.Normal? ==> e == Rest(fuel, r.stack, source, i + 1))
      && (r.Irreducible? ==> e == Stop(r.stack, source[i + 1..]))
  {
    hide Call;
    assert source[i..][1..] == source[i + 1..];
  }

  class TokenList {
    var tokens: seq<string>

    constructor ()
      ensures tokens == []
    {
      tokens := [];
    }

    /** Leave the rest of the source on the list; nothing is pushed when nothing is left. */
    method Irreducible(source: string, i: nat) returns (result: ParseResult)
      requires i <= |source|
      modifies this
      ensures Reports(result, tokens, Stop(old(tokens), source[i..]))
    {
      if |source| - i != 0 {
        tokens := tokens + [source[i..]];
      }
      result := IrreducibleParse;
    }

    method Swap()
      requires |tokens| >= 2
      modifies this
      ensures var n, t := |old(tokens)|, old(tokens); tokens == t[..n - 2] + [t[n - 1], t[n - 2]]
    {
      var n := |tokens|;
      tokens := tokens[n - 1 := tokens[n - 2]][n - 2 := tokens[n - 1]];
    }

    method Group()
      requires |tokens| >= 1
      modifies this
      ensures tokens == Below(old(tokens)) + ["(" + Top(old(tokens)) + ")"]
    {
      var n := |tokens|;
      var token := tokens[n - 1];
      var bigger := Allocate(token, |token| + 2);
      ShiftIn(bigger);
      tokens := tokens[n - 1 := bigger[..]];
    }

    method Merge()
      requires |tokens| >= 2 && IsParenthesized(tokens[|tokens| - 2]) && IsParenthesized(Top(tokens))
      modifies this
      ensures var n, t := |old(tokens)|, old(tokens); tokens == t[..n - 2] + [Merged(t[n - 2], Top(t))]
    {
      var n := |tokens|;
      var left, right := tokens[n - 2], tokens[n - 1];
      var bigger := Allocate(left, |left| + |right| - 2);
      assert bigger[..|left| - 1] == left[..|left| - 1] by {
        assert bigger[..|left|][..|left| - 1] == bigger[..|left| - 1];
      }
      CopyTail(bigger, |left|, right);
      tokens := tokens[..n - 2] + [bigger[..]];
    }

    /** Ungroup: take the top token off the list and run the text inside it one level deeper. */
    method RunTop(depth: nat) returns (result: ParseResult)
      requires depth < MAX_DEPTH && |tokens| >= 1 && IsParenthesized(Top(tokens))
      modifies this
      ensures Reports(result, tokens, Call(MAX_DEPTH - depth - 1, Below(old(tokens)), Inside(Top(old(tokens)))))
      decreases MAX_DEPTH - depth, 0
    {
      hide Call;
      var count := |tokens|;
      var token := tokens[count - 1];
      tokens := tokens[..count - 1];
      var inside := TakeInside(token);
      result := TokenizeInner(inside, depth + 1);
    }

    /** `tokenize_inner`: one activation at the given depth. */
    method TokenizeInner(source: string, depth: nat) returns (result: ParseResult)
      requires depth <= MAX_DEPTH
      modifies this
      ensures Reports(result, tokens, Call(MAX_DEPTH - depth, old(tokens), source))
      decreases MAX_DEPTH - depth, 1
    {
      hide Call, Balanced, Close, Merged, Inside, Depth, Exec, Rest;
      CallUnfolds(MAX_DEPTH - depth, tokens, source);
      if depth == MAX_DEPTH {
        return ErrorParse;
      }
      var ok := CheckBalance(source);
      if !ok {
        return ErrorParse;
      }
      ghost var fuel: nat := MAX_DEPTH - depth - 1;
      ghost var total := Exec(fuel, tokens, source);
      RestEnds(fuel, tokens, source);
      var i := 0;
      while i < |source|
        invariant 0 <= i <= |source| && Rest(fuel, tokens, source, i) == total
        decreases |source| - i
      {
        RestOfText(fuel, tokens, source, i);
        RestOfOperator(fuel, tokens, source, i);
        var count := |tokens|;
        match source[i] {
          case '(' =>
            var j := FindClose(source, i);
            if j == |source| {
              return ErrorParse;
            }
            tokens := tokens + [source[i..j + 1]];
            i := j;
          case ')' => return ErrorParse;
          case '~' =>
            if count < 2 {
              return ErrorParse;
            }
            Swap();
          case '+' =>
            if count == 0 {
              return ErrorParse;
            }
            tokens := tokens + [tokens[count - 1]];
          case '-' =>
            if count == 0 {
              return ErrorParse;
            }
            tokens := tokens[..count - 1];
          case '<' =>
            RestOfUngroup(fuel, tokens, source, i);
            if count == 0 {
              return ErrorParse;
            }
            if !IsParenthesized(tokens[count - 1]) {
              result := Irreducible(source, i);
              return;
            }
            var r := RunTop(depth);
            match r {
              case ErrorParse => return ErrorParse;
              case NormalParse =>
              case IrreducibleParse =>
                result := Irreducible(source, i + 1);
                return;
            }
          case '>' =>
            if count == 0 {
              return ErrorParse;
            }
            Group();
          case ',' =>
            if count < 2 {
              return ErrorParse;
            }
            if !IsParenthesized(tokens[count - 2]) || !IsParenthesized(tokens[count - 1]) {
              result := Irreducible(source, i);
              return;
            }
            Merge();
          case _ =>
            result := Irreducible(source, i);
            return;
        }
        i := i + 1;
      }
      RestEnds(fuel, tokens, source);
      result := NormalParse;
    }
  }

  /** `tokenize_whatever`: run on an empty list and join what is left; an empty list gives no text. */
  method TokenizeWhatever(text: string) returns (answer: Option<string>)
    ensures answer == Answer(Call(MAX_DEPTH, [], text))
    ensures var r := Call(MAX_DEPTH, [], text);
      && (answer == None <==> r.Error? || r.TooDeep? || r.stack == [])
      && (answer.Some? ==> Laid(answer.value, r.stack))
  {
    AnswerLaysTokens(Call(MAX_DEPTH, [], text));
    var list := new TokenList();
    var result := list.TokenizeInner(text, 0);
    if result == ErrorParse || |list.tokens| == 0 {
      return None;
    }
    var joined := "";
    var i := 0;
    assert list.tokens[0..] == list.tokens;
    while i < |list.tokens|
      invariant 0 <= i <= |list.tokens| && joined + Concat(list.tokens[i..]) == Concat(list.tokens)
    {
      assert list.tokens[i..][1..] == list.tokens[i + 1..];
      joined := joined + list.tokens[i];
      i := i + 1;
    }
    assert list.tokens[i..] == [] && joined + "" == joined;
    answer := Some(joined);
  }
}
