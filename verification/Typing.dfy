/** Which expressions have a value (base/src/parser.cpp, ASTNode::evaluate), and which texts are numbers. */
module Typing {
  import opened Evaluator
  import opened Options
  import opened Parser
  import opened VectorText

  lemma SignedNumeral(sign: char, digits: string, n: int)
    requires (sign == '+' || sign == '-') && AllDigits(digits) && digits != "" && n == NatOf(digits)
    ensures var s := [sign] + digits;
            IsNumeral(s) && IntOf(s) == if sign == '-' then -n else n
  {
    var s := [sign] + digits;
    assert s[1..] == digits;
  }

  lemma SignedReads(sign: char, digits: string, n: int)
    requires (sign == '+' || sign == '-') && AllDigits(digits) && digits != "" && n == NatOf(digits)
    ensures Read([sign] + digits) == [if sign == '-' then -n else n]
  {
    SignedNumeral(sign, digits, n);
    ReadNumeral([sign] + digits);
  }

  lemma UnsignedReads(digits: string, n: int)
    requires AllDigits(digits) && digits != "" && n == NatOf(digits)
    ensures Read(digits) == [n]
  {
    assert IsDigit(digits[0]) && digits[0..] == digits;
    ReadNumeral(digits);
  }

  /** A number may have a sign of either kind. */
  lemma NumbersRead(digits: string, n: int)
    requires AllDigits(digits) && digits != "" && n == NatOf(digits)
    ensures Read(digits) == Read("+" + digits) == [n] && Read("-" + digits) == [-n]
  {
    UnsignedReads(digits, n);
    SignedReads('+', digits, n);
    SignedReads('-', digits, n);
  }

  /** Integers joined by the four operators, parentheses, and bracketed lists of expressions that evaluate to a number. */
  predicate WellTyped(t: ASTNode)
    decreases t, 0
  {
    match t
    case Leaf(s) => IsNumeral(s)
    case Unary(str, inner) =>
      (str == "" && WellTyped(inner)) || (str == "[]" && (inner == Leaf("") || WellTypedList(inner)))
    case Binary(str, left, right) => IsArithmetic(str) && WellTyped(left) && WellTyped(right)
  }

  predicate WellTypedList(t: ASTNode)
    decreases t, 2
  {
    if t.Binary? && t.str == "," then WellTypedList(t.left) && IsScalar(t.right) else IsScalar(t)
  }

  predicate IsScalar(t: ASTNode)
    decreases t, 1
  {
    WellTyped(t) && IsNumeral(Evaluate(t))
  }

  lemma {:induction false} BracketsAreNoNumeral(t: ASTNode)
    requires Value(t).Some? && !Unbracketed(t)
    ensures !IsNumeral(Evaluate(t))
  {
    if t.str == "" {
      BracketsAreNoNumeral(t.left);
      JoinedIsEmpty(Evaluate(t.left));
    } else {
      assert Evaluate(t)[0] == '[';
    }
  }

  lemma ScalarIff(t: ASTNode)
    requires Value(t).Some? <==> WellTyped(t)
    ensures Value(t).Some? && Unbracketed(t) && |Value(t).value| == 1 <==> IsScalar(t)
  {
    if Value(t).Some? {
      var v := Value(t).value;
      Refines(t, v);
      if IsNumeral(Evaluate(t)) {
        ReadNumeral(Evaluate(t));
        if !Unbracketed(t) {
          BracketsAreNoNumeral(t);
        }
      }
    }
  }

  lemma {:induction false} ListIff(t: ASTNode)
    ensures ListValue(t).Some? <==> WellTypedList(t)
    decreases t, 1
  {
    if t.Binary? && t.str == "," {
      ListIff(t.left);
      HasValueIff(t.right);
      ScalarIff(t.right);
    } else {
      HasValueIff(t);
      ScalarIff(t);
    }
  }

  /** Exactly the well-typed expressions have a value. */
  lemma {:induction false} HasValueIff(t: ASTNode)
    ensures Value(t).Some? <==> WellTyped(t)
    decreases t, 0
  {
    match t
    case Leaf(_) =>
    case Unary(str, inner) =>
      HasValueIff(inner);
      ListIff(inner);
    case Binary(_, left, right) =>
      HasValueIff(left);
      HasValueIff(right);
  }
}
