/**
 The expression parser (base/src/parser.cpp, parseExpression): all operators bind equally and associate to the left;
 words separated by white space are joined by the operator " ".
 */
module Parser {
  import opened Options
  import opened VectorText

  /** A node with up to two children, as in base/include/grl/parser.h. */
  datatype ASTNode = Leaf(str: string) | Unary(str: string, left: ASTNode)
                   | Binary(str: string, left: ASTNode, right: ASTNode)

  predicate IsOperator(c: char) {
    c == '+' || c == '*' || c == ','
  }

  predicate IsOpen(c: char) {
    c == '[' || c == '('
  }

  predicate IsClose(c: char) {
    c == ']' || c == ')'
  }

  /** Does this character end a subexpression outside all parentheses? */
  predicate Separates(c: char) {
    IsOperator(c) || IsSpace(c)
  }

  // ----- What the parser computes -----

  /** Length of the subexpression at the front of s, inside `paren` parentheses (negative after a stray close). */
  function Scan(s: string, paren: int): (n: nat)
    ensures n <= |s|
    ensures n == 0 <==> s == "" || (Separates(s[0]) && paren == 0)
  {
    if s == "" || (Separates(s[0]) && paren == 0) then 0
    else if IsOpen(s[0]) then 1 + Scan(s[1..], paren + 1)
    else if !IsClose(s[0]) then 1 + Scan(s[1..], paren)
    else if paren == 1 then 1
    else 1 + Scan(s[1..], paren - 1)
  }

  function OperatorRun(s: string): (n: nat)
    ensures n <= |s| && (n == 0 <==> s == "" || !IsOperator(s[0]))
  {
    if s != "" && IsOperator(s[0]) then 1 + OperatorRun(s[1..]) else 0
  }

  /** What follows a subexpression. Overrun: the operator loop runs past the end of the text. */
  datatype Tail = End | Operator(op: string, rest: string) | Word(rest: string) | Overrun

  function TailOf(s: string): (t: Tail)
    ensures t.Operator? ==> |t.rest| < |s|
    ensures t.Word? ==> |t.rest| <= |s| && (|t.rest| == |s| ==> s != "" && !Separates(s[0]))
  {
    var t := Trim(s);
    TrimSkips(s);
    if t == "" then End
    else
      var n := OperatorRun(t);
      if n == 0 then Word(t) else if n == |t| then Overrun else Operator(t[..n], t[n..])
  }

  lemma {:induction false} TrimSkips(s: string)
    ensures Trim(s) != "" ==> !IsSpace(Trim(s)[0])
    ensures |Trim(s)| == |s| ==> Trim(s) == s
  {
    if s != "" && IsSpace(s[0]) {
      TrimSkips(s[1..]);
    }
  }

  /** The chain read so far and the operator that waits for its right operand. */
  datatype Chain = Nothing | Pending(op: string, node: ASTNode)

  function Attach(chain: Chain, node: ASTNode): ASTNode {
    match chain
    case Nothing => node
    case Pending(op, left) => Binary(op, left, node)
  }

  /** parseExpression; None if it would read behind the end of the text. */
  function Parse(s: string): Option<ASTNode>
    decreases |s|, 2
  {
    if s == "" then Some(Leaf("")) else ParseChain(s, Nothing)
  }

  function ParseChain(s: string, chain: Chain): Option<ASTNode>
    decreases |s|, 1
  {
    var t := Trim(s);
    var n := Scan(t, 0);
    TrimSkips(s);
    match ParseOperand(t[..n])
    case None => None
    case Some(operand) =>
      var node := Attach(chain, operand);
      match TailOf(t[n..])
      case End => Some(node)
      case Overrun => None
      case Operator(op, rest) => ParseChain(rest, Pending(op, node))
      case Word(rest) =>
        match Parse(rest)
        case None => None
        case Some(words) => Some(Binary(" ", node, words))
  }

  predicate Enclosed(expr: string, open: char, close: char) {
    |expr| > 1 && expr[0] == open && expr[|expr| - 1] == close
  }

  function ParseOperand(expr: string): Option<ASTNode>
    decreases |expr|, 0
  {
    if Enclosed(expr, '[', ']') || Enclosed(expr, '(', ')') then
      match Parse(expr[1..|expr| - 1])
      case None => None
      case Some(inner) => Some(Unary(if expr[0] == '[' then "[]" else "", inner))
    else Some(Leaf(expr))
  }

  /** One turn of the parser's loop, at a text t without spaces in front. */
  lemma ChainStep(s: string, chain: Chain, t: string, n: nat)
    requires t == Trim(s) && n == Scan(t, 0)
    ensures |t| <= |s| && n <= |t|
    ensures ParseChain(s, chain) ==
            match ParseOperand(t[..n])
            case None => None
            case Some(operand) =>
              var node := Attach(chain, operand);
              match TailOf(t[n..])
              case End => Some(node)
              case Overrun => None
              case Operator(op, rest) => ParseChain(rest, Pending(op, node))
              case Word(rest) => if Parse(rest).None? then None else Some(Binary(" ", node, Parse(rest).value))
  {
  }

  // ----- The parser -----

  method ScanExpression(str: string, start: nat) returns (expr: string, cc: nat)
    requires start <= |str|
    ensures start <= cc <= |str| && cc == start + Scan(str[start..], 0) && expr == str[start..cc]
  {
    cc, expr := start, "";
    var paren := 0;
    while cc < |str| && (!Separates(str[cc]) || paren != 0)
      invariant start <= cc <= |str| && expr == str[start..cc]
      invariant cc + Scan(str[cc..], paren) == start + Scan(str[start..], 0)
    {
      assert str[cc..][1..] == str[cc + 1..];
      var c := str[cc];
      expr := expr + [c];
      cc := cc + 1;
      if IsOpen(c) {
        paren := paren + 1;
      } else if IsClose(c) {
        paren := paren - 1;
        if paren == 0 {
          return;
        }
      }
    }
  }

  method ScanOperator(str: string, start: nat) returns (op: string, cc: nat)
    requires start <= |str|
    ensures start <= cc <= |str| && cc == start + OperatorRun(str[start..]) && op == str[start..cc]
  {
    cc, op := start, "";
    while cc < |str| && IsOperator(str[cc])
      invariant start <= cc <= |str| && op == str[start..cc]
      invariant cc + OperatorRun(str[cc..]) == start + OperatorRun(str[start..])
    {
      assert str[cc..][1..] == str[cc + 1..];
      op := op + [str[cc]];
      cc := cc + 1;
    }
  }

  /** Reads what follows a subexpression. */
  method ScanTail(str: string, start: nat) returns (tail: Tail, cc: nat)
    requires start <= |str|
    ensures tail == TailOf(str[start..]) && start <= cc <= |str|
    ensures tail.Operator? ==> str[cc..] == tail.rest
  {
    cc := SkipSpaces(str, start);
    if cc == |str| {
      return End, cc;
    }
    var word := str[cc..];
    var op, behind := ScanOperator(str, cc);
    assert op == word[..behind - cc] && str[behind..] == word[behind - cc..];
    if behind == cc {
      return Word(word), cc;
    } else if behind == |str| {
      return Overrun, behind;
    }
    return Operator(op, str[behind..]), behind;
  }

  method ParseExpression(str: string) returns (r: Option<ASTNode>)
    ensures r == Parse(str)
    decreases |str|, 1
  {
    if str == "" {
      return Some(Leaf(""));
    }
    var cc := 0;
    var chain := Nothing;
    assert str[0..] == str;
    while true
      invariant cc <= |str| && Parse(str) == ParseChain(str[cc..], chain)
      decreases |str| - cc
    {
      ghost var before := str[cc..];
      var at := SkipSpaces(str, cc);
      TrimSkips(before);
      ghost var t := str[at..];
      var expr, behind := ScanExpression(str, at);
      ChainStep(before, chain, t, behind - at);
      assert expr == t[..behind - at] && str[behind..] == t[behind - at..];
      var operand := Operand(str, expr);
      if operand.None? {
        return None;
      }
      var node := Attach(chain, operand.value);
      var tail;
      tail, cc := ScanTail(str, behind);
      match tail {
        case End =>
          return Some(node);
        case Overrun =>
          return None;
        case Operator(op, _) =>
          chain := Pending(op, node);
        case Word(rest) =>
          var words := ParseExpression(rest);
          return if words.None? then None else Some(Binary(" ", node, words.value));
      }
    }
  }

  method Operand(ghost str: string, expr: string) returns (r: Option<ASTNode>)
    requires |expr| <= |str|
    ensures r == ParseOperand(expr)
    decreases |str|, 0
  {
    if Enclosed(expr, '[', ']') {
      r := ParseExpression(expr[1..|expr| - 1]);
      return if r.None? then None else Some(Unary("[]", r.value));
    } else if Enclosed(expr, '(', ')') {
      r := ParseExpression(expr[1..|expr| - 1]);
      return if r.None? then None else Some(Unary("", r.value));
    }
    return Some(Leaf(expr));
  }
}
