/**
 The choice of a split (addons/llr/src/ertree.cpp, ERTreeNode): random attempts, of which those with samples on both
 sides are tried, and the best of these.
 */
module ERTreeChoice {
  import opened Reals
  import opened Sequences
  import opened ERTreeSpec

  // ----- Random attempts -----

  /** The random numbers of one tree: for the node with these samples, its attempts in order. */
  type Random = (seq<Sample>, nat) -> (Attr, real)

  /** A point drawn uniformly between the least and the greatest value of an input. */
  ghost predicate Uniform(s: seq<Sample>, attr: Attr, point: real) {
    || (exists x, y :: x in s && y in s && x.inp[attr] <= point < y.inp[attr])
    || (forall x :: x in s ==> x.inp[attr] == point)
  }

  /** The m-th attempt at this node is a random point of a random input. */
  ghost predicate IsAttempt(rand: Random, s: seq<Sample>, m: nat, inputs: nat) {
    rand(s, m).0 < inputs && Uniform(s, rand(s, m).0, rand(s, m).1)
  }

  /** From the m-th attempt on, one is not trivial. */
  ghost predicate SplitComes(rand: Random, s: seq<Sample>, m: nat) {
    exists n :: m <= n && Splits(s, rand(s, n))
  }

  /** As long as some input varies, attempts are in range, and sooner or later one of them is not trivial. */
  ghost predicate Supplies(rand: Random, inputs: nat)
    requires inputs <= MAX_COORDS
  {
    forall s, m: nat :: !SameInputs(s, inputs) ==> IsAttempt(rand, s, m, inputs) && SplitComes(rand, s, m)
  }

  predicate Splits(s: seq<Sample>, draw: (Attr, real)) {
    NonTrivial(s, draw.0, draw.1)
  }

  /** The first n attempts that succeed. */
  function Successes<T>(attempt: nat -> T, ok: T -> bool, n: nat): seq<T> {
    if n == 0 then [] else Successes(attempt, ok, n - 1) + if ok(attempt(n - 1)) then [attempt(n - 1)] else []
  }

  lemma {:induction false} SuccessesGrow<T>(attempt: nat -> T, ok: T -> bool, m: nat, n: nat)
    requires m <= n
    ensures Successes(attempt, ok, m) <= Successes(attempt, ok, n)
  {
    if m < n {
      SuccessesGrow(attempt, ok, m, n - 1);
    }
  }

  /** Attempts from `start` on until one succeeds. */
  method NextSuccess<T>(attempt: nat -> T, ok: T -> bool, start: nat) returns (x: T, next: nat)
    requires exists n :: start <= n && ok(attempt(n))
    ensures start < next && x == attempt(next - 1) && ok(x)
    ensures Successes(attempt, ok, next) == Successes(attempt, ok, start) + [x]
  {
    ghost var there: nat :| start <= there && ok(attempt(there));
    x, next := attempt(start), start + 1;
    while !ok(x)
      invariant start < next <= there + 1 && x == attempt(next - 1)
      invariant Successes(attempt, ok, next - 1) == Successes(attempt, ok, start)
      decreases there - next
    {
      x, next := attempt(next), next + 1;
    }
  }

  function Attempts(rand: Random, s: seq<Sample>): nat -> (Attr, real) {
    n => rand(s, n)
  }

  function Splitting(s: seq<Sample>): ((Attr, real)) -> bool {
    draw => Splits(s, draw)
  }

  /** The first n attempts without the trivial ones. */
  function Tried(rand: Random, s: seq<Sample>, n: nat): seq<(Attr, real)> {
    Successes(Attempts(rand, s), Splitting(s), n)
  }

  // ----- The best split -----

  /** Squared deviations of output j from the means of the two sides. */
  function Spread(s: seq<Sample>, draw: (Attr, real), j: Attr): real {
    var l, r := Column(LeftOf(s, draw.0, draw.1), j), Column(RightOf(s, draw.0, draw.1), j);
    SquaredDeviations(l, Mean(l)) + SquaredDeviations(r, Mean(r))
  }

  /** Over the first outputs that vary, relative to their variance. */
  function TotalSpread(s: seq<Sample>, v: seq<real>, draw: (Attr, real), upto: nat): real
    requires upto <= |v| <= MAX_COORDS
  {
    if upto == 0 then 0.0
    else
      var j := upto - 1;
      TotalSpread(s, v, draw, j) + if v[j] > 0.0 then Quotient(Spread(s, draw, j), v[j]) else 0.0
  }

  /** The k-th draw leaves the least spread, and is the first that does. */
  predicate FirstLeast(s: seq<Sample>, v: seq<real>, draws: seq<(Attr, real)>, k: nat)
    requires |v| <= MAX_COORDS
  {
    && k < |draws|
    && (forall i :: 0 <= i < |draws| ==> TotalSpread(s, v, draws[k], |v|) <= TotalSpread(s, v, draws[i], |v|))
    && (forall i :: 0 <= i < k ==> TotalSpread(s, v, draws[k], |v|) < TotalSpread(s, v, draws[i], |v|))
  }

  /** The split is the best one of as many draws as are to be tried. */
  ghost predicate BestOf(rand: Random, s: seq<Sample>, v: seq<real>, splits: nat, draw: (Attr, real))
    requires |v| <= MAX_COORDS
  {
    exists n, k :: IsChoice(rand, s, v, splits, draw, n, k)
  }

  ghost predicate IsChoice(rand: Random, s: seq<Sample>, v: seq<real>, splits: nat, draw: (Attr, real), n: nat, k: nat)
    requires |v| <= MAX_COORDS
  {
    var draws := Tried(rand, s, n);
    |draws| == splits && FirstLeast(s, v, draws, k) && draws[k] == draw
  }

  /** Every inner node of the tree has the best split of the draws made there. */
  ghost predicate BestSplits(node: Node, rand: Random, s: seq<Sample>, v: seq<real>, c: Config)
    requires |v| <= MAX_COORDS
  {
    node.Split? ==>
      var l, r := LeftOf(s, node.attr, node.point), RightOf(s, node.attr, node.point);
      && l != [] && r != [] && BestOf(rand, s, v, c.splits, (node.attr, node.point))
      && BestSplits(node.left, rand, l, Variances(l, |v|), c)
      && BestSplits(node.right, rand, r, InflatedVariances(r, v), c)
  }

  /** The draws of a node do not depend on how many more attempts follow. */
  lemma DrawsAreDetermined(rand: Random, s: seq<Sample>, m: nat, n: nat)
    requires |Tried(rand, s, m)| == |Tried(rand, s, n)|
    ensures Tried(rand, s, m) == Tried(rand, s, n)
  {
    if m <= n {
      SuccessesGrow(Attempts(rand, s), Splitting(s), m, n);
    } else {
      SuccessesGrow(Attempts(rand, s), Splitting(s), n, m);
    }
  }

  /** So the split of a node is determined by the random numbers. */
  lemma BestIsUnique(rand: Random, s: seq<Sample>, v: seq<real>, splits: nat, a: (Attr, real), b: (Attr, real))
    requires |v| <= MAX_COORDS && BestOf(rand, s, v, splits, a) && BestOf(rand, s, v, splits, b)
    ensures a == b
  {
    var m, i :| IsChoice(rand, s, v, splits, a, m, i);
    var n, k :| IsChoice(rand, s, v, splits, b, n, k);
    DrawsAreDetermined(rand, s, m, n);
  }

  lemma SplitVaries(s: seq<Sample>, attr: Attr, point: real, inputs: nat)
    requires attr < inputs <= MAX_COORDS && NonTrivial(s, attr, point)
    ensures !SameInputs(s, inputs)
  {
    var x, y := LeftOf(s, attr, point)[0], RightOf(s, attr, point)[0];
    FilterMembers(IsLeft(attr, point), s);
    FilterMembers(IsRight(attr, point), s);
    assert x in LeftOf(s, attr, point) && y in RightOf(s, attr, point);
    assert IsLeft(attr, point)(x) && IsRight(attr, point)(y);
    assert x.inp[attr] < point && !(y.inp[attr] < point);
  }

  /** A node is split exactly if it is large enough, its outputs vary, splits are to be tried, and its inputs vary. */
  lemma SplitIff(node: Node, rand: Random, s: seq<Sample>, v: seq<real>, c: Config)
    requires c.Valid() && |v| == c.outputs && Grown(node, s, v, c) && BestSplits(node, rand, s, v, c)
    ensures node.Split? <==> |s| >= c.leafSize && Sum(v) >= NO_VARIANCE && c.splits > 0 && !SameInputs(s, c.inputs)
  {
    if node.Split? {
      SplitVaries(s, node.attr, node.point, c.inputs);
      var n, k :| IsChoice(rand, s, v, c.splits, (node.attr, node.point), n, k);
    }
  }

  /** The tree that is grown from some samples is determined by the random numbers. */
  lemma {:induction false} TreeIsDetermined(a: Node, b: Node, rand: Random, s: seq<Sample>, v: seq<real>, c: Config)
    requires c.Valid() && |v| == c.outputs && a.lo == b.lo && Covers(a, s) && Covers(b, s)
    requires Grown(a, s, v, c) && BestSplits(a, rand, s, v, c)
    requires Grown(b, s, v, c) && BestSplits(b, rand, s, v, c)
    ensures a == b
    decreases a
  {
    SplitIff(a, rand, s, v, c);
    SplitIff(b, rand, s, v, c);
    if a.Split? {
      BestIsUnique(rand, s, v, c.splits, (a.attr, a.point), (b.attr, b.point));
      var l, r := LeftOf(s, a.attr, a.point), RightOf(s, a.attr, a.point);
      TreeIsDetermined(a.left, b.left, rand, l, Variances(l, |v|), c);
      TreeIsDetermined(a.right, b.right, rand, r, InflatedVariances(r, v), c);
    }
  }

  // ----- What the score is -----

  /** How many of the first outputs vary. */
  function Varying(v: seq<real>, upto: nat): real
    requires upto <= |v|
  {
    if upto == 0 then 0.0 else Varying(v, upto - 1) + if v[upto - 1] > 0.0 then 1.0 else 0.0
  }

  /** The deviations of a side are its size times its variance; on the right side the parent's variance is on top. */
  lemma SpreadIsVariance(s: seq<Sample>, v: seq<real>, draw: (Attr, real), j: Attr)
    requires j < |v| <= MAX_COORDS && Splits(s, draw)
    ensures var l, r := LeftOf(s, draw.0, draw.1), RightOf(s, draw.0, draw.1);
            Times(|l| as real, Variances(l, |v|)[j]) + Times(|r| as real, InflatedVariances(r, v)[j]) ==
            Spread(s, draw, j) + v[j]
  {
    var l, r := LeftOf(s, draw.0, draw.1), RightOf(s, draw.0, draw.1);
    TimesQuotient(SquaredDeviations(Column(l, j), Mean(Column(l, j))), |l| as real);
    TimesQuotient(v[j] + SquaredDeviations(Column(r, j), Mean(Column(r, j))), |r| as real);
  }

  lemma TimesQuotient(a: real, n: real)
    requires n > 0.0
    ensures Times(n, a / n) == a
  {
  }

  /** With one output the best split is the first one that leaves the least spread of this output. */
  lemma OneOutput(s: seq<Sample>, v: seq<real>, draws: seq<(Attr, real)>, k: nat)
    requires |v| == 1 && v[0] > 0.0
    ensures FirstLeast(s, v, draws, k) <==>
            && k < |draws| && (forall i :: 0 <= i < |draws| ==> Spread(s, draws[k], 0) <= Spread(s, draws[i], 0))
            && (forall i :: 0 <= i < k ==> Spread(s, draws[k], 0) < Spread(s, draws[i], 0))
  {
    if k < |draws| {
      forall i | 0 <= i < |draws|
        ensures TotalSpread(s, v, draws[k], |v|) <= TotalSpread(s, v, draws[i], |v|) <==>
                Spread(s, draws[k], 0) <= Spread(s, draws[i], 0)
        ensures TotalSpread(s, v, draws[i], |v|) <= TotalSpread(s, v, draws[k], |v|) <==>
                Spread(s, draws[i], 0) <= Spread(s, draws[k], 0)
      {
        OneSpreadOrder(s, v, draws[k], draws[i]);
        OneSpreadOrder(s, v, draws[i], draws[k]);
      }
    }
  }

  lemma OneSpreadOrder(s: seq<Sample>, v: seq<real>, a: (Attr, real), b: (Attr, real))
    requires |v| == 1 && v[0] > 0.0
    ensures TotalSpread(s, v, a, |v|) <= TotalSpread(s, v, b, |v|) <==> Spread(s, a, 0) <= Spread(s, b, 0)
  {
    OneSpread(s, v, a);
    OneSpread(s, v, b);
    QuotientOrder(Spread(s, a, 0), Spread(s, b, 0), v[0]);
  }

  lemma OneSpread(s: seq<Sample>, v: seq<real>, draw: (Attr, real))
    requires |v| == 1 && v[0] > 0.0
    ensures TotalSpread(s, v, draw, 1) == Quotient(Spread(s, draw, 0), v[0])
  {
    assert TotalSpread(s, v, draw, 0) == 0.0;
  }

  lemma QuotientOrder(a: real, b: real, n: real)
    requires n > 0.0
    ensures Quotient(a, n) <= Quotient(b, n) <==> a <= b
  {
    var p, q := Quotient(a, n), Quotient(b, n);
    assert p * n == a && q * n == b;
    assert (q - p) * n == b - a;
  }
}
