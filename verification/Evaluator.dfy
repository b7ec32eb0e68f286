/**
 Evaluation of parsed expressions (base/src/parser.cpp, ASTNode::evaluate). Every node returns a string, which its
 parent reads back as a vector; this is shown to refine an evaluator that works on vectors throughout. Elements are
 integers.
 */
module Evaluator {
  import opened Options
  import opened VectorText
  import opened Parser
  import opened Grammar

  // ----- What the code computes -----

  function ScaledBy(k: int, v: seq<int>): (r: seq<int>)
    ensures |r| == |v|
  {
    seq(|v|, i requires 0 <= i < |v| => k * v[i])
  }

  function Times(x: seq<int>, y: seq<int>): seq<int>
    requires |x| == |y|
  {
    seq(|x|, i requires 0 <= i < |x| => x[i] * y[i])
  }

  function Replicate(x: seq<int>, n: nat): seq<int> {
    if n == 0 then [] else x + Replicate(x, n - 1)
  }

  function Place(copy: nat, length: nat, j: nat): nat {
    copy * length + j
  }

  lemma PlaceStep(copy: nat, length: nat, j: nat)
    ensures Place(copy + 1, length, j) == length + Place(copy, length, j)
  {
  }

  /** There are n copies, and element j of each of them is element j of x. */
  lemma {:induction false} ReplicateRepeats(x: seq<int>, n: nat, copy: nat, j: nat)
    requires copy < n && j < |x|
    ensures |Replicate(x, n)| == n * |x|
    ensures Place(copy, |x|, j) < |Replicate(x, n)| && Replicate(x, n)[Place(copy, |x|, j)] == x[j]
  {
    ReplicateLength(x, n);
    if copy > 0 {
      PlaceStep(copy - 1, |x|, j);
      ReplicateRepeats(x, n - 1, copy - 1, j);
    }
  }

  lemma {:induction false} ReplicateLength(x: seq<int>, n: nat)
    ensures |Replicate(x, n)| == n * |x|
  {
    if n > 0 {
      ReplicateLength(x, n - 1);
    }
  }

  predicate IsArithmetic(op: string) {
    op == "+" || op == "++" || op == "*" || op == "**"
  }

  /** The vector an operator gives; a size mismatch is logged and gives the empty vector. */
  function Apply(op: string, x: seq<int>, y: seq<int>): seq<int>
    requires IsArithmetic(op)
  {
    if op == "+" then (if |x| == 1 && |y| == 1 then [x[0] + y[0]] else x + y)
    else if op == "++" then x + y
    else if op == "*" then
      (if |x| == 1 then ScaledBy(x[0], y)
       else if |y| == 1 then ScaledBy(y[0], x)
       else if |x| == |y| then Times(x, y)
       else [])
    else if |y| == 1 && y[0] > 0 then Replicate(x, y[0])
    else []
  }

  /** One element is written bare, any other vector in brackets. */
  function Shown(z: seq<int>): string {
    if |z| == 1 then Numeral(z[0]) else Written(z)
  }

  function Combine(str: string, left: string, right: string): string {
    if IsArithmetic(str) then Shown(Apply(str, Read(left), Read(right)))
    else if str == "[]" then "[ " + left + " ]"
    else left + str + right
  }

  function Evaluate(t: ASTNode): string {
    match t
    case Leaf(str) => Combine(str, "", "")
    case Unary(str, left) => Combine(str, Evaluate(left), "")
    case Binary(str, left, right) => Combine(str, Evaluate(left), Evaluate(right))
  }

  function EvaluateExpression(s: string): Option<string> {
    match Parse(s)
    case None => None
    case Some(t) => Some(Evaluate(t))
  }

  // ----- What it means -----

  /** Can the value appear without brackets? */
  predicate Unbracketed(t: ASTNode) {
    match t
    case Leaf(_) => true
    case Unary(str, inner) => str == "" && Unbracketed(inner)
    case Binary(str, _, _) => IsArithmetic(str)
  }

  /** The vector an expression denotes; None if it is not well typed. */
  function Value(t: ASTNode): Option<seq<int>>
    decreases t, 0
  {
    match t
    case Leaf(s) => if IsNumeral(s) then Some([IntOf(s)]) else None
    case Unary(str, inner) =>
      if str == "" then Value(inner)
      else if str != "[]" then None
      else if inner == Leaf("") then Some([])
      else ListValue(inner)
    case Binary(str, left, right) =>
      if !IsArithmetic(str) then None
      else
        match (Value(left), Value(right))
        case (Some(x), Some(y)) => Some(Apply(str, x, y))
        case _ => None
  }

  /** A comma-separated list of scalars. */
  function ListValue(t: ASTNode): Option<seq<int>>
    decreases t, 1
  {
    if t.Binary? && t.str == "," then
      match (ListValue(t.left), Value(t.right))
      case (Some(x), Some(y)) => if Unbracketed(t.right) && |y| == 1 then Some(x + y) else None
      case _ => None
    else
      match Value(t)
      case None => None
      case Some(x) => if Unbracketed(t) && |x| == 1 then Some(x) else None
  }

  // ----- The code computes what it means -----

  lemma ReadNumeral(s: string)
    requires IsNumeral(s)
    ensures Read(s) == [IntOf(s)]
  {
    NumeralIsTrimmed(s, "");
    NumeralEnds(s, "");
    assert s + "" == s;
    assert s[0] != '[';
  }

  /** A shown vector is read back, and a single element is shown as a number. */
  lemma ReadShown(z: seq<int>)
    ensures Read(Shown(z)) == z
    ensures |z| == 1 ==> IsNumeral(Shown(z))
  {
    if |z| == 1 {
      NumeralRoundTrip(z[0]);
      ReadNumeral(Numeral(z[0]));
    } else {
      ReadWritten(z);
    }
  }

  // ----- What the operators mean for the text of an expression -----

  /** A vector is read back from the text of an expression whose operator gives it. */
  lemma OperatorReads(op: string, left: ASTNode, right: ASTNode)
    requires IsArithmetic(op)
    ensures Read(Evaluate(Binary(op, left, right))) == Apply(op, Read(Evaluate(left)), Read(Evaluate(right)))
  {
    ReadShown(Apply(op, Read(Evaluate(left)), Read(Evaluate(right))));
  }

  /** Two scalars are added; anything else joined by + is put behind each other. */
  lemma PlusReads(left: ASTNode, right: ASTNode, x: seq<int>, y: seq<int>)
    requires Read(Evaluate(left)) == x && Read(Evaluate(right)) == y
    ensures var z := Read(Evaluate(Binary("+", left, right)));
            if |x| == 1 && |y| == 1 then |z| == 1 && z[0] == x[0] + y[0] else z == x + y
  {
    OperatorReads("+", left, right);
  }

  lemma ConcatenationReads(left: ASTNode, right: ASTNode, x: seq<int>, y: seq<int>)
    requires Read(Evaluate(left)) == x && Read(Evaluate(right)) == y
    ensures Read(Evaluate(Binary("++", left, right))) == x + y
  {
    OperatorReads("++", left, right);
  }

  /** A scalar multiplies every element, vectors of the same length are multiplied by element, and others cannot be. */
  lemma ProductReads(left: ASTNode, right: ASTNode, x: seq<int>, y: seq<int>)
    requires Read(Evaluate(left)) == x && Read(Evaluate(right)) == y
    ensures var z := Read(Evaluate(Binary("*", left, right)));
            && (|x| == 1 ==> |z| == |y| && forall i :: 0 <= i < |y| ==> z[i] == x[0] * y[i])
            && (|y| == 1 ==> |z| == |x| && forall i :: 0 <= i < |x| ==> z[i] == x[i] * y[0])
            && (|x| == |y| ==> |z| == |x| && forall i :: 0 <= i < |x| ==> z[i] == x[i] * y[i])
            && (|x| != 1 && |y| != 1 && |x| != |y| ==> z == [])
  {
    OperatorReads("*", left, right);
  }

  /** A positive count repeats the vector that often; there is no other repetition. */
  lemma ReplicationReads(left: ASTNode, right: ASTNode, x: seq<int>, y: seq<int>)
    requires Read(Evaluate(left)) == x && Read(Evaluate(right)) == y
    ensures var z := Read(Evaluate(Binary("**", left, right)));
            if |y| == 1 && y[0] > 0
            then |z| == y[0] * |x| && (x != [] ==> forall k :: 0 <= k < |z| ==> z[k] == x[k % |x|])
            else z == []
  {
    OperatorReads("**", left, right);
    if |y| == 1 && y[0] > 0 {
      ReplicateLength(x, y[0]);
      if x != [] {
        forall k | 0 <= k < |Replicate(x, y[0])|
          ensures Replicate(x, y[0])[k] == x[k % |x|]
        {
          ReplicateAt(x, y[0], k);
        }
      }
    }
  }

  lemma {:induction false} ReplicateAt(x: seq<int>, n: nat, k: nat)
    requires x != [] && k < |Replicate(x, n)|
    ensures Replicate(x, n)[k] == x[k % |x|]
  {
    if k < |x| {
      SmallRemainder(k, |x|);
    } else {
      ReplicateAt(x, n - 1, k - |x|);
      RemainderOfRest(k, |x|);
    }
  }

  lemma SmallRemainder(k: nat, m: nat)
    requires k < m
    ensures k % m == k
  {
  }

  lemma RemainderOfRest(k: nat, m: nat)
    requires 0 < m <= k
    ensures (k - m) % m == k % m
  {
    Unique(k, m, k / m - 1, k % m);
  }

  /** Quotient and remainder are unique. */
  lemma Unique(k: nat, m: nat, q: int, r: nat)
    requires m > 0 && r < m && k - m == q * m + r
    ensures (k - m) % m == r
  {
    var a, b := (k - m) / m - q, (k - m) % m - r;
    assert a * m == -b;
  }

  lemma JoinedIsEmpty(s: string)
    ensures "" + s + "" == s && s + "" + "" == s
  {
  }

  /** The elements behind a comma. */
  function Behind(d: string): seq<int> {
    if d != "" && d[0] == ',' then ReadItems(d[1..]) else []
  }

  lemma ScalarReads(s: string, rest: string)
    requires IsNumeral(s) && rest != "" && !IsDigit(rest[0])
    ensures ReadItems(s + rest) == [IntOf(s)] + Behind(FromDelimiter(rest))
  {
    NumeralIsTrimmed(s, rest);
    FirstItemIs(s, rest);
  }

  lemma CommaIsDelimiter(s: string)
    ensures FromDelimiter("," + s) == "," + s && Behind("," + s) == ReadItems(s)
  {
    assert ("," + s)[1..] == s;
  }

  lemma CloseIsDelimiter()
    ensures Behind(FromDelimiter(" ]")) == []
  {
    assert " ]"[1..] == "]";
    assert FromDelimiter(" ]") == "]";
  }

  lemma Append(a: seq<int>, b: seq<int>, c: seq<int>)
    ensures a + (b + c) == a + b + c
  {
  }

  /** One more element behind a list. */
  lemma OneMoreReads(x: seq<int>, r: string, rest: string)
    requires IsNumeral(r) && rest != "" && !IsDigit(rest[0])
    ensures x + Behind(FromDelimiter("," + (r + rest))) == x + [IntOf(r)] + Behind(FromDelimiter(rest))
  {
    CommaIsDelimiter(r + rest);
    ScalarReads(r, rest);
    Append(x, [IntOf(r)], Behind(FromDelimiter(rest)));
  }

  lemma {:induction false} ListReads(t: ASTNode, v: seq<int>, rest: string)
    requires ListValue(t) == Some(v) && rest != "" && !IsDigit(rest[0])
    ensures ReadItems(Evaluate(t) + rest) == v + Behind(FromDelimiter(rest))
    decreases t, 1
  {
    if t.Binary? && t.str == "," {
      var x, y := ListValue(t.left).value, Value(t.right).value;
      var l, r := Evaluate(t.left), Evaluate(t.right);
      Refines(t.right, y);
      ListReads(t.left, x, "," + (r + rest));
      ReadNumeral(r);
      OneMoreReads(x, r, rest);
      Regroup(l, ",", r, rest);
      assert Evaluate(t) == l + "," + r && v == x + y;
    } else {
      var x := Value(t).value;
      ScalarRefines(t, x);
      ReadNumeral(Evaluate(t));
      ScalarReads(Evaluate(t), rest);
    }
  }

  lemma {:induction false} ScalarRefines(t: ASTNode, v: seq<int>)
    requires Value(t) == Some(v) && Unbracketed(t) && |v| == 1
    ensures IsNumeral(Evaluate(t)) && Read(Evaluate(t)) == v
    decreases t, 0
  {
    match t
    case Leaf(s) =>
      JoinedIsEmpty(s);
      ReadNumeral(s);
    case Unary(str, inner) =>
      ScalarRefines(inner, v);
      JoinedIsEmpty(Evaluate(inner));
    case Binary(str, left, right) =>
      Refines(left, Value(left).value);
      Refines(right, Value(right).value);
      ReadShown(v);
  }

  /** On well-typed expressions, reading back the string that evaluate returns gives the value. */
  lemma {:induction false} Refines(t: ASTNode, v: seq<int>)
    requires Value(t) == Some(v)
    ensures Read(Evaluate(t)) == v
    ensures Unbracketed(t) && |v| == 1 ==> IsNumeral(Evaluate(t))
    decreases t, 2
  {
    match t
    case Leaf(s) => ScalarRefines(t, v);
    case Unary(str, inner) =>
      if str == "" {
        Refines(inner, v);
        JoinedIsEmpty(Evaluate(inner));
      } else if inner == Leaf("") {
        JoinedIsEmpty("");
        assert Evaluate(t) == Written([]);
        ReadWritten([]);
      } else {
        ListReads(inner, v, " ]");
        CloseIsDelimiter();
        assert Evaluate(t) == "[ " + (Evaluate(inner) + " ]");
        BracketReads(Evaluate(inner) + " ]");
      }
    case Binary(str, left, right) =>
      Refines(left, Value(left).value);
      Refines(right, Value(right).value);
      ReadShown(v);
  }

  /** From text to text: a printed well-typed expression is evaluated to a text that reads as its value. */
  lemma EvaluationIsCorrect(t: ASTNode, v: seq<int>)
    requires IsSource(t) && Value(t) == Some(v)
    ensures EvaluateExpression(Print(t)).Some? && Read(EvaluateExpression(Print(t)).value) == v
  {
    RoundTrip(t);
    Refines(t, v);
  }

  lemma ReadStopsAtComma(s: string, rest: string)
    requires IsNumeral(s)
    ensures Read(s + "," + rest) == [IntOf(s)]
  {
    var list := s + ("," + rest);
    NumeralIsTrimmed(s, "," + rest);
    NumeralEnds(s, "," + rest);
    assert list[0] == s[0];
    assert s + "," + rest == list;
  }

  lemma LeafIsItself(s: string)
    requires IsNumeral(s)
    ensures Evaluate(Leaf(s)) == s
  {
    JoinedIsEmpty(s);
  }

  lemma BracketedNumeralReads(s: string)
    requires IsNumeral(s)
    ensures Read("[ " + s + " ]") == [IntOf(s)]
  {
    LastItemReads(s);
    BracketReads(s + " ]");
    assert "[ " + s + " ]" == "[ " + (s + " ]");
  }

  lemma ScalarsAdd(left: string, right: string, x: int, y: int)
    requires Read(left) == [x] && Read(right) == [y]
    ensures Combine("+", left, right) == Numeral(x + y)
  {
  }

  lemma ListPlusScalar(a: string, b: string, c: string)
    requires IsNumeral(a) && IsNumeral(b) && IsNumeral(c)
    ensures Evaluate(Binary("+", Binary(",", Leaf(a), Leaf(b)), Leaf(c))) == Numeral(IntOf(a) + IntOf(c))
  {
    var list := Binary(",", Leaf(a), Leaf(b));
    LeafIsItself(a);
    LeafIsItself(b);
    LeafIsItself(c);
    assert Evaluate(list) == a + "," + b;
    ReadStopsAtComma(a, b);
    ReadNumeral(c);
    ScalarsAdd(Evaluate(list), c, IntOf(a), IntOf(c));
  }

  /** The comma binds no weaker than +: in [a,b+c] the sum is taken of the whole list, of which only a is read. */
  lemma CommaBindsLikePlus(a: string, b: string, c: string)
    requires IsNumeral(a) && IsNumeral(b) && IsNumeral(c)
    ensures var t := Unary("[]", Binary("+", Binary(",", Leaf(a), Leaf(b)), Leaf(c)));
            Read(Evaluate(t)) == [IntOf(a) + IntOf(c)]
  {
    var sum := Binary("+", Binary(",", Leaf(a), Leaf(b)), Leaf(c));
    var s := Numeral(IntOf(a) + IntOf(c));
    ListPlusScalar(a, b, c);
    NumeralRoundTrip(IntOf(a) + IntOf(c));
    BracketedNumeralReads(s);
    assert Evaluate(Unary("[]", sum)) == Combine("[]", Evaluate(sum), "");
  }
}
