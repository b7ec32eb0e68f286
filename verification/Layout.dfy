/**
 White space in expressions: however the operators and parentheses of an expression are spaced, the parser
 (base/src/parser.cpp) reads the same tree. Only words side by side need a space between them.
 */
module Layout {
  import opened Grammar
  import opened Options
  import opened Parser
  import opened VectorText

  /** An expression as it is written. */
  datatype Written = Name(str: string)
                   | Group(square: bool, before: string, inner: Written, after: string)
                   | Infix(left: Written, before: string, op: string, after: string, right: Written)
                   | Words(left: Written, gap: string, right: Written)

  function Text(w: Written): string {
    match w
    case Name(str) => str
    case Group(square, before, inner, after) => Wrapped(square, before + (Text(inner) + after))
    case Infix(left, before, op, after, right) => Text(left) + (before + (op + (after + Text(right))))
    case Words(left, gap, right) => Text(left) + (gap + Text(right))
  }

  function Wrapped(square: bool, body: string): string {
    if square then "[" + body + "]" else "(" + body + ")"
  }

  /** The tree it stands for. */
  function Tree(w: Written): ASTNode {
    match w
    case Name(str) => Leaf(str)
    case Group(square, _, inner, _) => Unary(if square then "[]" else "", Tree(inner))
    case Infix(left, _, op, _, right) => Binary(op, Tree(left), Tree(right))
    case Words(left, _, right) => Binary(" ", Tree(left), Tree(right))
  }

  /** Blanks and tabs. */
  predicate Spaces(s: string) {
    forall k :: 0 <= k < |s| ==> s[k] == ' ' || s[k] == '\t'
  }

  /** All gaps are white space, of any length except between words. */
  predicate WellSpaced(w: Written) {
    match w
    case Name(_) => true
    case Group(_, before, inner, after) => Spaces(before) && Spaces(after) && WellSpaced(inner)
    case Infix(left, before, op, after, right) =>
      Spaces(before) && Spaces(after) && OperatorString(op) && WellSpaced(left) && WellSpaced(right)
    case Words(left, gap, right) => Spaces(gap) && gap != "" && WellSpaced(left) && WellSpaced(right)
  }

  // ----- White space is skipped -----

  lemma {:induction false} TrimSpaces(gap: string, s: string)
    requires Spaces(gap)
    ensures Trim(gap + s) == Trim(s)
  {
    if gap == "" {
      assert gap + s == s;
    } else {
      assert (gap + s)[1..] == gap[1..] + s;
      TrimSpaces(gap[1..], s);
    }
  }

  lemma SpacesBefore(gap: string, s: string, chain: Chain)
    requires Spaces(gap)
    ensures TailOf(gap + s) == TailOf(s)
    ensures ParseChain(gap + s, chain) == ParseChain(s, chain)
  {
    TrimSpaces(gap, s);
    var t := Trim(s);
    ChainStep(s, chain, t, Scan(t, 0));
    ChainStep(gap + s, chain, t, Scan(t, 0));
  }

  lemma NothingButSpaces(gap: string)
    requires Spaces(gap)
    ensures Trim(gap) == "" && TailOf(gap) == End && Parse(gap) == Some(Leaf(""))
  {
    assert gap + "" == gap;
    TrimSpaces(gap, "");
    SpacesBefore(gap, "", Nothing);
  }

  // ----- Scanning -----

  /** Inside parentheses a written expression is passed over as a whole. */
  lemma {:induction false} ScanText(w: Written, rest: string, paren: int)
    requires IsSource(Tree(w)) && WellSpaced(w) && paren > 0
    ensures Scan(Text(w) + rest, paren) == |Text(w)| + Scan(rest, paren)
    decreases w, 1
  {
    if w != Name("") {
      Parts(Tree(w));
    }
    match w
    case Name(str) => ScanPlain(str, rest, paren);
    case Group(_, _, _, _) => ScanGroup(w, rest, paren);
    case Infix(left, before, op, after, right) =>
      ScanText(right, rest, paren);
      ScanPlain(after, Text(right) + rest, paren);
      ScanPlain(op, after + (Text(right) + rest), paren);
      ScanPlain(before, op + (after + (Text(right) + rest)), paren);
      ScanText(left, before + (op + (after + (Text(right) + rest))), paren);
      InfixText(w, rest);
    case Words(left, gap, right) =>
      ScanText(right, rest, paren);
      ScanPlain(gap, Text(right) + rest, paren);
      ScanText(left, gap + (Text(right) + rest), paren);
      WordsText(w, rest);
  }

  lemma InfixText(w: Written, rest: string)
    requires w.Infix?
    ensures Text(w) + rest == Text(w.left) + (w.before + (w.op + (w.after + (Text(w.right) + rest))))
  {
  }

  lemma WordsText(w: Written, rest: string)
    requires w.Words?
    ensures Text(w) + rest == Text(w.left) + (w.gap + (Text(w.right) + rest))
  {
  }

  lemma {:induction false} ScanGroup(w: Written, rest: string, paren: nat)
    requires w.Group? && IsOperand(Tree(w)) && WellSpaced(w)
    ensures Scan(Text(w) + rest, paren) == |Text(w)| + (if paren == 0 then 0 else Scan(rest, paren))
    decreases w, 0
  {
    var close := if w.square then ']' else ')';
    ScanText(w.inner, w.after + ([close] + rest), paren + 1);
    ScanPadded(w.before, Text(w.inner), w.after, [close] + rest, paren + 1);
    ScanEnclosed(if w.square then '[' else '(', w.before + (Text(w.inner) + w.after), close, rest, paren);
  }

  lemma ScanPadded(before: string, inner: string, after: string, rest: string, paren: nat)
    requires Spaces(before) && Spaces(after) && paren > 0
    requires Scan(inner + (after + rest), paren) == |inner| + Scan(after + rest, paren)
    ensures var body := before + (inner + after);
            Scan(body + rest, paren) == |body| + Scan(rest, paren)
  {
    ScanPlain(after, rest, paren);
    ScanPlain(before, inner + (after + rest), paren);
    assert before + (inner + after) + rest == before + (inner + (after + rest));
  }

  lemma ScanOperand(w: Written, rest: string)
    requires IsOperand(Tree(w)) && WellSpaced(w) && (rest != "" ==> Separates(rest[0]))
    ensures Scan(Text(w) + rest, 0) == |Text(w)|
  {
    match w
    case Name(str) => ScanAtom(str, rest);
    case Group(_, _, _, _) => ScanGroup(w, rest, 0);
  }

  lemma {:induction false} WrittenStarts(w: Written)
    requires IsExpression(Tree(w)) && WellSpaced(w)
    ensures Text(w) != "" && !Separates(Text(w)[0])
  {
    Parts(Tree(w));
    if w.Infix? || w.Words? {
      WrittenStarts(w.left);
      assert Text(w)[0] == Text(w.left)[0];
    }
  }

  // ----- Parsing -----

  /** Words are no chain, and any other expression is one. */
  lemma ChainOrWords(w: Written)
    requires IsExpression(Tree(w)) && WellSpaced(w)
    ensures if w.Words? then !IsChain(Tree(w)) && IsChain(Tree(w.left)) && IsExpression(Tree(w.right))
            else IsChain(Tree(w))
  {
    assert !IsOperator(" "[0]);
    assert w.Infix? ==> IsOperator(w.op[0]);
  }

  /** An operator is found between gaps; the gap behind it is skipped with the next operand. */
  lemma TailIsInfix(before: string, op: string, after: string, s: string)
    requires Spaces(before) && Spaces(after) && OperatorString(op) && s != "" && !Separates(s[0])
    ensures TailOf(before + (op + (after + s))) == Operator(op, after + s)
  {
    var t := op + (after + s);
    SpacesBefore(before, t, Nothing);
    assert !IsOperator((after + s)[0]);
    OperatorRunEnds(op, after + s);
    assert t[0] == op[0] && t[..|op|] == op && t[|op|..] == after + s;
  }

  lemma OperandStep(w: Written, rest: string, chain: Chain)
    requires IsOperand(Tree(w)) && WellSpaced(w) && (rest != "" ==> Separates(rest[0]))
    requires ParseOperand(Text(w)) == Some(Tree(w))
    ensures ParseChain(Text(w) + rest, chain) == Continue(Attach(chain, Tree(w)), rest)
  {
    var s := Text(w) + rest;
    OperandsAreExpressions(Tree(w));
    WrittenStarts(w);
    assert s[0] == Text(w)[0];
    assert Trim(s) == s;
    ScanOperand(w, rest);
    assert s[..|Text(w)|] == Text(w) && s[|Text(w)|..] == rest;
    ChainStep(s, chain, s, |Text(w)|);
  }

  lemma {:induction false} OperandIsRead(w: Written)
    requires IsOperand(Tree(w)) && WellSpaced(w)
    ensures ParseOperand(Text(w)) == Some(Tree(w))
    decreases w, 0
  {
    if w.Group? {
      SpacingIsFree(w.inner, w.before, w.after);
      var body := w.before + (Text(w.inner) + w.after);
      assert Text(w)[1..|Text(w)| - 1] == body == w.before + Text(w.inner) + w.after;
    }
  }

  lemma {:induction false} ChainIsRead(w: Written, rest: string)
    requires IsChain(Tree(w)) && WellSpaced(w) && (rest != "" ==> Separates(rest[0]))
    ensures ParseChain(Text(w) + rest, Nothing) == Continue(Tree(w), rest)
    decreases w, 1
  {
    ChainsAreExpressions(Tree(w));
    ChainOrWords(w);
    if w.Infix? {
      var behind := Text(w.right) + rest;
      OperandsAreExpressions(Tree(w.right));
      WrittenStarts(w.right);
      InfixText(w, rest);
      ChainIsRead(w.left, w.before + (w.op + (w.after + behind)));
      TailIsInfix(w.before, w.op, w.after, behind);
      SpacesBefore(w.after, behind, Pending(w.op, Tree(w.left)));
      OperandIsRead(w.right);
      OperandStep(w.right, rest, Pending(w.op, Tree(w.left)));
    } else {
      OperandIsRead(w);
      OperandStep(w, rest, Nothing);
    }
  }

  /** The parser reads the tree that was written, whatever the white space around and in it. */
  lemma {:induction false} SpacingIsFree(w: Written, before: string, after: string)
    requires IsSource(Tree(w)) && WellSpaced(w) && Spaces(before) && Spaces(after)
    ensures Parse(before + Text(w) + after) == Some(Tree(w))
    decreases w, 3
  {
    if w == Name("") {
      assert before + Text(w) + after == before + after;
      NothingButSpaces(before + after);
    } else {
      WrittenStarts(w);
      ChainOrWords(w);
      assert before + Text(w) + after == before + (Text(w) + after);
      SpacesBefore(before, Text(w) + after, Nothing);
      if w.Words? {
        WordsAreRead(w, after);
      } else {
        ChainIsRead(w, after);
        NothingButSpaces(after);
      }
    }
  }

  lemma {:induction false} WordsAreRead(w: Written, after: string)
    requires w.Words? && IsExpression(Tree(w)) && WellSpaced(w) && Spaces(after)
    ensures ParseChain(Text(w) + after, Nothing) == Some(Tree(w))
    decreases w, 2
  {
    var right := Text(w.right) + after;
    ChainOrWords(w);
    WrittenStarts(w.right);
    WordsText(w, after);
    ChainIsRead(w.left, w.gap + right);
    SpacingIsFree(w.right, "", after);
    assert "" + Text(w.right) == Text(w.right);
    WordsBehind(Tree(w.left), w.gap, right, Tree(w.right));
  }

  lemma WordsBehind(node: ASTNode, gap: string, right: string, words: ASTNode)
    requires Spaces(gap) && right != "" && !Separates(right[0]) && Parse(right) == Some(words)
    ensures Continue(node, gap + right) == Some(Binary(" ", node, words))
  {
    SpacesBefore(gap, right, Nothing);
  }

  /** However two expressions are spaced, the same text stands for the same tree. */
  lemma TextMeansOneTree(w: Written, v: Written)
    requires IsSource(Tree(w)) && WellSpaced(w) && IsSource(Tree(v)) && WellSpaced(v) && Text(w) == Text(v)
    ensures Tree(w) == Tree(v)
  {
    SpacingIsFree(w, "", "");
    SpacingIsFree(v, "", "");
  }
}
