/**
 The texts that expressions stand for: printing an abstract syntax tree and parsing the text gives the tree back,
 and the parser's reads stay inside the text.
 */
module Grammar {
  import opened Options
  import opened VectorText
  import opened Parser

  // ----- Trees that have a text -----

  predicate Plain(s: string) {
    forall k :: 0 <= k < |s| ==> !Separates(s[k]) && !IsOpen(s[k]) && !IsClose(s[k])
  }

  predicate OperatorString(s: string) {
    s != "" && forall k :: 0 <= k < |s| ==> IsOperator(s[k])
  }

  /** A name or number, or a source in brackets or parentheses. */
  predicate IsOperand(t: ASTNode)
    decreases t, 0
  {
    match t
    case Leaf(s) => s != "" && Plain(s)
    case Unary(str, inner) => (str == "[]" || str == "") && IsSource(inner)
    case Binary(_, _, _) => false
  }

  /** Operands joined by operators, to the left. */
  predicate IsChain(t: ASTNode)
    decreases t, 1
  {
    if t.Binary? then OperatorString(t.str) && IsChain(t.left) && IsOperand(t.right) else IsOperand(t)
  }

  /** Chains side by side, to the right. */
  predicate IsExpression(t: ASTNode)
    decreases t, 2
  {
    if t.Binary? && t.str == " " then IsChain(t.left) && IsExpression(t.right) else IsChain(t)
  }

  predicate IsSource(t: ASTNode)
    decreases t, 3
  {
    t == Leaf("") || IsExpression(t)
  }

  lemma ChainsAreExpressions(t: ASTNode)
    requires IsChain(t)
    ensures IsExpression(t)
  {
    if t.Binary? {
      assert IsOperator(t.str[0]);
    }
  }

  lemma OperandsAreExpressions(t: ASTNode)
    requires IsOperand(t)
    ensures IsExpression(t)
  {
    assert IsChain(t);
  }

  lemma Parts(t: ASTNode)
    requires IsExpression(t)
    ensures match t
            case Leaf(s) => s != "" && Plain(s)
            case Unary(str, inner) => (str == "[]" || str == "") && IsSource(inner)
            case Binary(str, left, right) => IsExpression(left) && IsExpression(right) && (str == " " || OperatorString(str))
  {
    if t.Binary? {
      ChainsAreExpressions(t.left);
      if t.str != " " {
        assert IsChain(t);
        OperandsAreExpressions(t.right);
      }
    } else {
      assert IsChain(t);
      assert IsOperand(t);
    }
  }

  function Print(t: ASTNode): string {
    match t
    case Leaf(s) => s
    case Unary(str, inner) => if str == "[]" then "[" + Print(inner) + "]" else "(" + Print(inner) + ")"
    case Binary(str, left, right) => Print(left) + str + Print(right)
  }

  // ----- Parsing undoes printing -----

  lemma {:induction false} ScanPlain(s: string, rest: string, paren: int)
    requires paren > 0 && forall k :: 0 <= k < |s| ==> !IsOpen(s[k]) && !IsClose(s[k])
    ensures Scan(s + rest, paren) == |s| + Scan(rest, paren)
  {
    if s == "" {
      assert s + rest == rest;
    } else {
      assert (s + rest)[1..] == s[1..] + rest;
      ScanPlain(s[1..], rest, paren);
    }
  }

  lemma ScanEnclosed(open: char, body: string, close: char, rest: string, paren: nat)
    requires IsOpen(open) && IsClose(close)
    requires Scan(body + ([close] + rest), paren + 1) == |body| + Scan([close] + rest, paren + 1)
    ensures Scan([open] + body + [close] + rest, paren) ==
            |body| + 2 + (if paren == 0 then 0 else Scan(rest, paren))
  {
    assert ([open] + body + [close] + rest)[1..] == body + ([close] + rest);
    assert ([close] + rest)[1..] == rest;
  }

  /** Inside parentheses a printed tree is passed over as a whole. */
  lemma {:induction false} ScanPrinted(t: ASTNode, rest: string, paren: int)
    requires IsSource(t) && paren > 0
    ensures Scan(Print(t) + rest, paren) == |Print(t)| + Scan(rest, paren)
  {
    if t != Leaf("") {
      Parts(t);
    }
    match t
    case Leaf(s) => ScanPlain(s, rest, paren);
    case Unary(str, inner) =>
      var close := if str == "[]" then ']' else ')';
      ScanPrinted(inner, [close] + rest, paren + 1);
      ScanEnclosed(if str == "[]" then '[' else '(', Print(inner), close, rest, paren);
    case Binary(str, left, right) =>
      ScanPrinted(right, rest, paren);
      ScanPlain(str, Print(right) + rest, paren);
      ScanPrinted(left, str + (Print(right) + rest), paren);
      Regroup(Print(left), str, Print(right), rest);
  }

  lemma {:induction false} ScanAtom(s: string, rest: string)
    requires Plain(s) && (rest == "" || Separates(rest[0]))
    ensures Scan(s + rest, 0) == |s|
  {
    if s == "" {
      assert s + rest == rest;
    } else {
      assert (s + rest)[1..] == s[1..] + rest;
      ScanAtom(s[1..], rest);
    }
  }

  /** At the front of a text an operand is cut off as a whole. */
  lemma ScanOperandText(t: ASTNode, rest: string)
    requires IsOperand(t) && (t.Leaf? && rest != "" ==> Separates(rest[0]))
    ensures Scan(Print(t) + rest, 0) == |Print(t)|
  {
    match t
    case Leaf(s) => ScanAtom(s, rest);
    case Unary(str, inner) =>
      var close := if str == "[]" then ']' else ')';
      ScanPrinted(inner, [close] + rest, 1);
      ScanEnclosed(if str == "[]" then '[' else '(', Print(inner), close, rest, 0);
  }

  lemma {:induction false} TextStarts(t: ASTNode)
    requires IsExpression(t)
    ensures Print(t) != "" && !Separates(Print(t)[0])
  {
    Parts(t);
    if t.Binary? {
      TextStarts(t.left);
      assert Print(t)[0] == Print(t.left)[0];
    }
  }

  lemma {:induction false} OperatorRunEnds(op: string, rest: string)
    requires (forall k :: 0 <= k < |op| ==> IsOperator(op[k])) && rest != "" && !IsOperator(rest[0])
    ensures OperatorRun(op + rest) == |op|
  {
    if op == "" {
      assert op + rest == rest;
    } else {
      assert (op + rest)[1..] == op[1..] + rest;
      OperatorRunEnds(op[1..], rest);
    }
  }

  /** What the parser makes of the text behind a chain. */
  function Continue(node: ASTNode, s: string): Option<ASTNode> {
    match TailOf(s)
    case End => Some(node)
    case Overrun => None
    case Operator(op, rest) => ParseChain(rest, Pending(op, node))
    case Word(rest) =>
      match Parse(rest)
      case None => None
      case Some(words) => Some(Binary(" ", node, words))
  }

  lemma ParseChainIs(t: ASTNode, rest: string, chain: Chain)
    requires IsOperand(t) && (rest != "" ==> Separates(rest[0]))
    requires ParseOperand(Print(t)) == Some(t)
    ensures ParseChain(Print(t) + rest, chain) == Continue(Attach(chain, t), rest)
  {
    var s := Print(t) + rest;
    TextStarts(t);
    assert s[0] == Print(t)[0];
    assert Trim(s) == s;
    ScanOperandText(t, rest);
    assert s[..|Print(t)|] == Print(t) && s[|Print(t)|..] == rest;
  }

  lemma TailIsOperator(op: string, s: string)
    requires OperatorString(op) && s != "" && !Separates(s[0])
    ensures TailOf(op + s) == Operator(op, s)
  {
    OperatorRunEnds(op, s);
    assert (op + s)[0] == op[0];
    assert (op + s)[..|op|] == op && (op + s)[|op|..] == s;
  }

  lemma TailIsWord(s: string)
    requires s != "" && !Separates(s[0])
    ensures TailOf(" " + s) == Word(s)
  {
    TrimSpace(s);
  }

  lemma {:induction false} OperandRoundTrip(t: ASTNode)
    requires IsOperand(t)
    ensures ParseOperand(Print(t)) == Some(t)
    decreases t, 0
  {
    if t.Unary? {
      RoundTrip(t.left);
      assert Print(t)[1..|Print(t)| - 1] == Print(t.left);
    }
  }

  lemma {:induction false} ChainRoundTrip(t: ASTNode, rest: string)
    requires IsChain(t) && (rest != "" ==> Separates(rest[0]))
    ensures ParseChain(Print(t) + rest, Nothing) == Continue(t, rest)
    decreases t, 1
  {
    if t.Binary? {
      var behind := Print(t.right) + rest;
      TextStarts(t.right);
      Regroup(Print(t.left), t.str, Print(t.right), rest);
      ChainRoundTrip(t.left, t.str + behind);
      TailIsOperator(t.str, behind);
      OperandRoundTrip(t.right);
      ParseChainIs(t.right, rest, Pending(t.str, t.left));
    } else {
      OperandRoundTrip(t);
      ParseChainIs(t, rest, Nothing);
    }
  }

  /** A chain with text `left` and the words behind it. */
  lemma WordsFollow(left: string, node: ASTNode, right: string, words: ASTNode)
    requires right != "" && !Separates(right[0]) && Parse(right) == Some(words)
    requires ParseChain(left + (" " + right), Nothing) == Continue(node, " " + right)
    ensures Parse(left + (" " + right)) == Some(Binary(" ", node, words))
  {
    TailIsWord(right);
  }

  lemma ChainAlone(t: ASTNode)
    requires Print(t) != "" && ParseChain(Print(t) + "", Nothing) == Continue(t, "")
    ensures Parse(Print(t)) == Some(t)
  {
    assert Print(t) + "" == Print(t);
  }

  lemma PrintWords(left: ASTNode, right: ASTNode)
    ensures Print(Binary(" ", left, right)) == Print(left) + (" " + Print(right))
  {
    assert Print(left) + " " + Print(right) == Print(left) + (" " + Print(right));
  }

  /** Parsing a printed tree gives the tree back. */
  lemma {:induction false} RoundTrip(t: ASTNode)
    requires IsSource(t)
    ensures Parse(Print(t)) == Some(t)
    decreases t, 3
  {
    if t == Leaf("") {
    } else if t.Binary? && t.str == " " {
      WordsRoundTrip(t);
    } else {
      TextStarts(t);
      ChainRoundTrip(t, "");
      ChainAlone(t);
    }
  }

  lemma {:induction false} WordsRoundTrip(t: ASTNode)
    requires IsExpression(t) && t.Binary? && t.str == " "
    ensures Parse(Print(t)) == Some(t)
    decreases t, 2
  {
    TextStarts(t.right);
    RoundTrip(t.right);
    ChainRoundTrip(t.left, " " + Print(t.right));
    WordsFollow(Print(t.left), t.left, Print(t.right), t.right);
    PrintWords(t.left, t.right);
  }

  /** Different trees have different texts. */
  lemma PrintIsInjective(t: ASTNode, u: ASTNode)
    requires IsSource(t) && IsSource(u) && Print(t) == Print(u)
    ensures t == u
  {
    RoundTrip(t);
    RoundTrip(u);
  }

  // ----- Texts the parser reads without running past their end -----

  /** This is an operator at the end of the text or before a closing parenthesis. */
  predicate Dangles(s: string, i: nat) {
    i < |s| && IsOperator(s[i]) && (i + 1 == |s| || IsClose(s[i + 1]))
  }

  predicate NoDanglingOperator(s: string) {
    forall i :: 0 <= i < |s| ==> !Dangles(s, i)
  }

  lemma {:induction false} TrimIsSuffix(s: string)
    ensures Trim(s) == s[|s| - |Trim(s)|..]
    ensures forall k :: 0 <= k < |s| - |Trim(s)| ==> IsSpace(s[k])
  {
    if s != "" && IsSpace(s[0]) {
      TrimIsSuffix(s[1..]);
      assert forall k :: 1 <= k < |s| - |Trim(s)| ==> s[k] == s[1..][k - 1];
    }
  }

  lemma SuffixIsSafe(s: string, n: nat)
    requires NoDanglingOperator(s) && n <= |s|
    ensures NoDanglingOperator(s[n..])
  {
    forall i | 0 <= i < |s[n..]|
      ensures !Dangles(s[n..], i)
    {
      assert !Dangles(s, n + i);
    }
  }

  lemma TrimIsSafe(s: string)
    requires NoDanglingOperator(s)
    ensures NoDanglingOperator(Trim(s))
  {
    TrimIsSuffix(s);
    SuffixIsSafe(s, |s| - |Trim(s)|);
  }

  lemma InsideIsSafe(s: string, n: nat)
    requires NoDanglingOperator(s) && 2 <= n <= |s| && IsClose(s[n - 1])
    ensures NoDanglingOperator(s[..n][1..n - 1])
  {
    var inner := s[..n][1..n - 1];
    forall i | 0 <= i < |inner|
      ensures !Dangles(inner, i)
    {
      assert inner[i] == s[i + 1] && !Dangles(s, i + 1);
    }
  }

  lemma {:induction false} OperatorRunIs(s: string)
    ensures forall k :: 0 <= k < OperatorRun(s) ==> IsOperator(s[k])
  {
    if s != "" && IsOperator(s[0]) {
      OperatorRunIs(s[1..]);
      assert forall k :: 1 <= k < OperatorRun(s) ==> s[k] == s[1..][k - 1];
    }
  }

  lemma TailIsSafe(s: string)
    requires NoDanglingOperator(s)
    ensures !TailOf(s).Overrun?
    ensures TailOf(s).Operator? || TailOf(s).Word? ==> NoDanglingOperator(TailOf(s).rest)
  {
    var t := Trim(s);
    TrimIsSafe(s);
    OperatorRunIs(t);
    SuffixIsSafe(t, OperatorRun(t));
    assert t != "" ==> !Dangles(t, |t| - 1);
  }

  /** The parser is safe on every text without dangling operators. */
  lemma {:induction false} ParseIsDefined(s: string)
    requires NoDanglingOperator(s)
    ensures Parse(s).Some?
    decreases |s|, 1
  {
    if s != "" {
      ChainIsDefined(s, Nothing);
    }
  }

  lemma {:induction false} ChainIsDefined(s: string, chain: Chain)
    requires NoDanglingOperator(s)
    ensures ParseChain(s, chain).Some?
    decreases |s|, 0
  {
    var t := Trim(s);
    var n := Scan(t, 0);
    TrimSkips(s);
    TrimIsSafe(s);
    SuffixIsSafe(t, n);
    TailIsSafe(t[n..]);
    if Enclosed(t[..n], '[', ']') || Enclosed(t[..n], '(', ')') {
      InsideIsSafe(t, n);
      ParseIsDefined(t[..n][1..n - 1]);
    }
    match TailOf(t[n..])
    case End =>
    case Operator(op, rest) =>
      ChainIsDefined(rest, Pending(op, Attach(chain, ParseOperand(t[..n]).value)));
    case Word(rest) =>
      ParseIsDefined(rest);
  }

  // ----- Exactly when, on texts with matching parentheses -----

  predicate Closes(open: char, close: char) {
    (open == '[' && close == ']') || (open == '(' && close == ')')
  }

  /**
   Inside these open parentheses, and behind a word or not: every parenthesis closes one of its kind, and opens only
   where an operand starts.
   */
  predicate Matched(s: string, open: string, word: bool) {
    if s == "" then open == ""
    else if IsOpen(s[0]) then !word && Matched(s[1..], open + [s[0]], false)
    else if IsClose(s[0]) then open != "" && Closes(open[|open| - 1], s[0]) && Matched(s[1..], open[..|open| - 1], false)
    else Matched(s[1..], open, !Separates(s[0]))
  }

  /** Position n - 1 closes the outermost of the open parentheses, between matched texts. */
  predicate ClosedAt(s: string, open: string, word: bool, n: nat)
    requires open != ""
  {
    0 < n <= |s| && Closes(open[0], s[n - 1]) && Matched(s[..n - 1], open[1..], word) && Matched(s[n..], "", false)
  }

  /** One more character in front. */
  lemma ClosedLater(s: string, open: string, word: bool, open': string, word': bool, n: nat)
    requires s != "" && open != "" && open' != "" && open[0] == open'[0] && ClosedAt(s[1..], open', word', n)
    requires if IsOpen(s[0]) then !word && !word' && open'[1..] == open[1..] + [s[0]]
             else if IsClose(s[0])
             then !word' && |open| > 1 && Closes(open[|open| - 1], s[0]) && open'[1..] == open[1..][..|open| - 2]
             else word' == !Separates(s[0]) && open' == open
    ensures ClosedAt(s, open, word, n + 1)
  {
    var front := s[..n];
    assert front != "" && front[0] == s[0] && front[1..] == s[1..][..n - 1];
    assert s[n + 1..] == s[1..][n..];
  }

  /** The scan ends at the parenthesis that closes the outermost one, with a matched text before and behind it. */
  lemma {:induction false} ScanMatched(s: string, open: string, word: bool)
    requires open != "" && Matched(s, open, word)
    ensures ClosedAt(s, open, word, Scan(s, |open|))
  {
    var n := Scan(s, |open|);
    if IsOpen(s[0]) {
      ScanMatched(s[1..], open + [s[0]], false);
      ClosedLater(s, open, word, open + [s[0]], false, n - 1);
    } else if IsClose(s[0]) && |open| == 1 {
      ClosedNow(s, open, word);
    } else if IsClose(s[0]) {
      ScanMatched(s[1..], open[..|open| - 1], false);
      ClosedLater(s, open, word, open[..|open| - 1], false, n - 1);
    } else {
      ScanMatched(s[1..], open, !Separates(s[0]));
      ClosedLater(s, open, word, open, !Separates(s[0]), n - 1);
    }
  }

  lemma ClosedNow(s: string, open: string, word: bool)
    requires s != "" && |open| == 1 && IsClose(s[0]) && Matched(s, open, word)
    ensures ClosedAt(s, open, word, 1)
  {
    assert s[..0] == "" && open[1..] == "" && open[..0] == "";
  }

  /** A word goes up to the next separator. */
  lemma {:induction false} ScanWord(s: string)
    requires Matched(s, "", true)
    ensures Plain(s[..Scan(s, 0)]) && Matched(s[Scan(s, 0)..], "", false)
  {
    var n := Scan(s, 0);
    if n > 0 {
      ScanWord(s[1..]);
      assert s[..n] == [s[0]] + s[1..][..n - 1];
      assert s[n..] == s[1..][n - 1..];
    } else {
      assert s[0..] == s;
    }
  }

  lemma {:induction false} TrimIsMatched(s: string)
    requires Matched(s, "", false)
    ensures Matched(Trim(s), "", false) && NoDanglingOperator(Trim(s)) == NoDanglingOperator(s)
  {
    if s != "" && IsSpace(s[0]) {
      TrimIsMatched(s[1..]);
      DanglesBehind(s, 1);
    }
  }

  /** Behind a front without operators the text is as safe as the whole. */
  lemma DanglesBehind(s: string, n: nat)
    requires n <= |s| && forall k :: 0 <= k < n ==> !IsOperator(s[k])
    ensures NoDanglingOperator(s[n..]) == NoDanglingOperator(s)
  {
    if NoDanglingOperator(s) {
      SuffixIsSafe(s, n);
    } else {
      var i :| 0 <= i < |s| && Dangles(s, i);
      assert Dangles(s[n..], i - n);
    }
  }

  /** A text that starts with an enclosed operand is as safe as the inside and what is behind. */
  lemma DanglesInside(t: string, n: nat)
    requires 2 <= n <= |t| && IsOpen(t[0]) && IsClose(t[n - 1])
    ensures NoDanglingOperator(t) <==> NoDanglingOperator(t[..n][1..n - 1]) && NoDanglingOperator(t[n..])
  {
    var inner := t[..n][1..n - 1];
    if NoDanglingOperator(t) {
      InsideIsSafe(t, n);
      SuffixIsSafe(t, n);
    } else {
      var i :| 0 <= i < |t| && Dangles(t, i);
      if i < n {
        assert inner[i - 1] == t[i] && (i < n - 2 ==> inner[i] == t[i + 1]);
        assert Dangles(inner, i - 1);
      } else {
        assert Dangles(t[n..], i - n);
      }
    }
  }

  /** The first operand: what is inside it if it is enclosed, and what is behind it. */
  lemma OperandMatched(t: string)
    requires Matched(t, "", false)
    ensures var n := Scan(t, 0);
            Matched(t[n..], "", false) &&
            if Enclosed(t[..n], '[', ']') || Enclosed(t[..n], '(', ')')
            then Matched(t[..n][1..n - 1], "", false) &&
                 (NoDanglingOperator(t) <==> NoDanglingOperator(t[..n][1..n - 1]) && NoDanglingOperator(t[n..]))
            else NoDanglingOperator(t) == NoDanglingOperator(t[n..])
  {
    var n := Scan(t, 0);
    if n == 0 {
      assert t[0..] == t;
    } else if IsOpen(t[0]) {
      EnclosedMatched(t);
      DanglesInside(t, n);
    } else {
      WordMatched(t);
    }
  }

  lemma EnclosedMatched(t: string)
    requires t != "" && IsOpen(t[0]) && Matched(t, "", false)
    ensures var n := Scan(t, 0);
            2 <= n && Closes(t[0], t[n - 1]) && Matched(t[n..], "", false) && Matched(t[..n][1..n - 1], "", false)
  {
    var n, open := Scan(t, 0), [t[0]];
    assert "" + [t[0]] == open && open[1..] == "";
    ScanMatched(t[1..], open, false);
    assert t[1..][..n - 2] == t[..n][1..n - 1];
    assert t[1..][n - 1..] == t[n..];
  }

  lemma WordMatched(t: string)
    requires t != "" && !IsOpen(t[0]) && !Separates(t[0]) && Matched(t, "", false)
    ensures var n := Scan(t, 0);
            Plain(t[..n]) && Matched(t[n..], "", false) && NoDanglingOperator(t[n..]) == NoDanglingOperator(t)
  {
    var n := Scan(t, 0);
    ScanWord(t[1..]);
    OneMorePlain(t, n);
    DanglesBehind(t, n);
  }

  lemma OneMorePlain(t: string, n: nat)
    requires 0 < n <= |t| && !IsOpen(t[0]) && !IsClose(t[0]) && !Separates(t[0]) && Plain(t[1..][..n - 1])
    ensures Plain(t[..n]) && t[n..] == t[1..][n - 1..] && forall k :: 0 <= k < n ==> !IsOperator(t[k])
  {
    assert forall k :: 1 <= k < n ==> t[k] == t[1..][..n - 1][k - 1];
  }

  /** The operator loop runs over the end exactly when the operators are the last thing in the text. */
  lemma TailMatched(s: string)
    requires Matched(s, "", false)
    ensures match TailOf(s)
            case End => NoDanglingOperator(s)
            case Overrun => !NoDanglingOperator(s)
            case Operator(_, rest) => Matched(rest, "", false) && NoDanglingOperator(rest) == NoDanglingOperator(s)
            case Word(rest) => Matched(rest, "", false) && NoDanglingOperator(rest) == NoDanglingOperator(s)
  {
    var t := Trim(s);
    TrimIsMatched(s);
    RunMatched(t);
  }

  lemma {:induction false} RunMatched(t: string)
    requires Matched(t, "", false)
    ensures var k := OperatorRun(t);
            Matched(t[k..], "", false) &&
            NoDanglingOperator(t) == if 0 < k == |t| then false else NoDanglingOperator(t[k..])
  {
    var k := OperatorRun(t);
    if k == 0 {
      assert t[0..] == t;
    } else {
      RunMatched(t[1..]);
      assert t[k..] == t[1..][k - 1..];
      if k < |t| || k > 1 {
        assert t[1] == t[1..][0] && !IsClose(t[1]);
        OperatorGoesOn(t);
      } else {
        assert Dangles(t, 0);
      }
    }
  }

  /** An operator before anything but a closing parenthesis does not dangle. */
  lemma OperatorGoesOn(t: string)
    requires |t| > 1 && !IsClose(t[1])
    ensures NoDanglingOperator(t[1..]) == NoDanglingOperator(t)
  {
    if NoDanglingOperator(t) {
      SuffixIsSafe(t, 1);
    } else {
      var i :| 0 <= i < |t| && Dangles(t, i);
      assert Dangles(t[1..], i - 1);
    }
  }

  /** On texts with matching parentheses the parser is safe exactly when no operator dangles. */
  lemma {:induction false} MatchedIsDefinedIff(s: string)
    requires Matched(s, "", false)
    ensures Parse(s).Some? <==> NoDanglingOperator(s)
    decreases |s|, 4
  {
    if s != "" {
      MatchedChainIsDefinedIff(s, Nothing);
    }
  }

  /** The first operand, if it is enclosed, is safe with its inside. */
  lemma {:induction false} OperandIsDefinedIff(t: string, n: nat)
    requires Matched(t, "", false) && n == Scan(t, 0)
    ensures Matched(t[n..], "", false)
    ensures NoDanglingOperator(t) <==> ParseOperand(t[..n]).Some? && NoDanglingOperator(t[n..])
    decreases |t|, 2
  {
    OperandMatched(t);
    if Enclosed(t[..n], '[', ']') || Enclosed(t[..n], '(', ')') {
      MatchedIsDefinedIff(t[..n][1..n - 1]);
    }
  }

  lemma {:induction false} MatchedChainIsDefinedIff(s: string, chain: Chain)
    requires Matched(s, "", false)
    ensures ParseChain(s, chain).Some? <==> NoDanglingOperator(s)
    decreases |s|, 3
  {
    var t := Trim(s);
    var n := Scan(t, 0);
    ChainStep(s, chain, t, n);
    TrimIsMatched(s);
    OperandIsDefinedIff(t, n);
    TailMatched(t[n..]);
    var operand := ParseOperand(t[..n]);
    if operand.Some? {
      match TailOf(t[n..])
      case End =>
      case Overrun =>
      case Operator(op, rest) =>
        MatchedChainIsDefinedIff(rest, Pending(op, Attach(chain, operand.value)));
      case Word(rest) =>
        WordIsShorter(s, t, n);
        MatchedIsDefinedIff(rest);
    }
  }

  /** Words are only left behind an operand. */
  lemma WordIsShorter(s: string, t: string, n: nat)
    requires t == Trim(s) && n == Scan(t, 0) && TailOf(t[n..]).Word?
    ensures |TailOf(t[n..]).rest| < |s|
  {
    TrimSkips(s);
    assert n == 0 ==> t[n..] == t;
  }

  /** No parentheses at all. */
  predicate Flat(s: string) {
    forall k :: 0 <= k < |s| ==> !IsOpen(s[k]) && !IsClose(s[k])
  }

  /** Is there a last character, and is it an operator? */
  predicate EndsInOperator(s: string) {
    s != "" && IsOperator(s[|s| - 1])
  }

  lemma {:induction false} FlatIsMatched(s: string, word: bool)
    requires Flat(s)
    ensures Matched(s, "", word)
  {
    if s != "" {
      FlatIsMatched(s[1..], !Separates(s[0]));
    }
  }

  /** Without parentheses only the last character matters. */
  lemma FlatIsDefinedIff(s: string)
    requires Flat(s)
    ensures Parse(s).Some? <==> !EndsInOperator(s)
  {
    FlatIsMatched(s, false);
    MatchedIsDefinedIff(s);
    assert EndsInOperator(s) ==> Dangles(s, |s| - 1);
  }
}
