/**
 The extremely randomized tree index over a sample array
 (addons/llr/src/ertree.cpp), seen as values: what a tree is, how it reads,
 which arrangement of the samples it describes and which variances it assumes.
 */
module ERTreeSpec {
  import opened Reals
  import opened Sequences

  /** SS_MAX_COORDS: every sample stores this many input and output coordinates. */
  const MAX_COORDS: nat := 16

  type Coords = c: seq<real> | |c| == MAX_COORDS witness seq(MAX_COORDS, i => 0.0)

  datatype Sample = Sample(inp: Coords, out: Coords)

  datatype Config = Config(inputs: nat, outputs: nat, splits: nat, leafSize: nat) {
    predicate Valid() {
      1 <= inputs <= MAX_COORDS && 1 <= outputs <= MAX_COORDS
    }
  }

  type Attr = a: nat | a < MAX_COORDS witness 0

  /** `lo` and `num` are the node's `samples_` pointer and `num_samples_`: a range of the shared array. */
  datatype Node =
    | Leaf(lo: nat, num: nat, constant: bool)
    | Split(lo: nat, num: nat, attr: Attr, point: real, left: Node, right: Node)

  function IsLeft(attr: Attr, point: real): Sample -> bool {
    (x: Sample) => x.inp[attr] < point
  }

  function IsRight(attr: Attr, point: real): Sample -> bool {
    (x: Sample) => !(x.inp[attr] < point)
  }

  function LeftOf(s: seq<Sample>, attr: Attr, point: real): seq<Sample> {
    Filter(IsLeft(attr, point), s)
  }

  function RightOf(s: seq<Sample>, attr: Attr, point: real): seq<Sample> {
    Filter(IsRight(attr, point), s)
  }

  predicate NonTrivial(s: seq<Sample>, attr: Attr, point: real) {
    LeftOf(s, attr, point) != [] && RightOf(s, attr, point) != []
  }

  ghost predicate SameInputs(s: seq<Sample>, inputs: nat)
    requires inputs <= MAX_COORDS
  {
    forall x, y, j :: x in s && y in s && 0 <= j < inputs ==> x.inp[j] == y.inp[j]
  }

  // ----- Reading -----

  /** `ERTreeNode::read`: descend to the query's leaf and return its samples, one of them if it is constant. */
  function Read(node: Node, mem: seq<Sample>, query: seq<real>): seq<Sample>
    requires InRange(node, |mem|) && |query| == MAX_COORDS
  {
    match node
    case Leaf(lo, num, constant) => if constant then [mem[lo]] else mem[lo..lo + num]
    case Split(_, _, attr, point, left, right) =>
      if query[attr] < point then Read(left, mem, query) else Read(right, mem, query)
  }

  predicate InRange(node: Node, size: nat) {
    node.lo + node.num <= size &&
    match node
    case Leaf(_, num, constant) => constant ==> num > 0
    case Split(_, _, _, _, left, right) => InRange(left, size) && InRange(right, size)
  }

  /** Does `x` pass every comparison on the query's path with the query's own outcome? */
  predicate SamePath(node: Node, x: seq<real>, query: seq<real>)
    requires |x| == MAX_COORDS && |query| == MAX_COORDS
  {
    match node
    case Leaf(_, _, _) => true
    case Split(_, _, attr, point, left, right) =>
      (x[attr] < point) == (query[attr] < point) &&
      SamePath(if query[attr] < point then left else right, x, query)
  }

  function LeafOf(node: Node, query: seq<real>): (leaf: Node)
    requires |query| == MAX_COORDS
    ensures leaf.Leaf?
  {
    match node
    case Leaf(_, _, _) => node
    case Split(_, _, attr, point, left, right) =>
      if query[attr] < point then LeafOf(left, query) else LeafOf(right, query)
  }

  function OnPath(node: Node, query: seq<real>): Sample -> bool
    requires |query| == MAX_COORDS
  {
    (x: Sample) => SamePath(node, x.inp, query)
  }

  /** The child that a query descends to. */
  function Child(node: Node, query: seq<real>): Node
    requires node.Split? && |query| == MAX_COORDS
  {
    if query[node.attr] < node.point then node.left else node.right
  }

  /** The samples that go to that child. */
  function Part(node: Node, s: seq<Sample>, query: seq<real>): seq<Sample>
    requires node.Split? && |query| == MAX_COORDS
  {
    if query[node.attr] < node.point then LeftOf(s, node.attr, node.point) else RightOf(s, node.attr, node.point)
  }

  /** The reference for `Read`: a linear scan of the samples in their original order. */
  function LinearScan(node: Node, s: seq<Sample>, query: seq<real>): seq<Sample>
    requires |query| == MAX_COORDS
  {
    Filter(OnPath(node, query), s)
  }

  // ----- Arrangement -----

  /** The node's ranges have the sizes that its splits give the samples `s`, and no range is empty. */
  ghost predicate Covers(node: Node, s: seq<Sample>) {
    node.num == |s| &&
    match node
    case Leaf(_, num, constant) => constant ==> num > 0
    case Split(lo, _, attr, point, left, right) =>
      && NonTrivial(s, attr, point)
      && left.lo == lo && left.num == |LeftOf(s, attr, point)|
      && right.lo == lo + left.num && right.num == |RightOf(s, attr, point)|
      && Covers(left, LeftOf(s, attr, point))
      && Covers(right, RightOf(s, attr, point))
  }

  /** Where building the tree leaves the samples `s`: every split partitions its range stably. */
  function Arranged(node: Node, s: seq<Sample>): (r: seq<Sample>) {
    match node
    case Leaf(_, _, _) => s
    case Split(_, _, attr, point, left, right) =>
      Arranged(left, LeftOf(s, attr, point)) + Arranged(right, RightOf(s, attr, point))
  }

  /** Every range of the tree lies strictly on its side of the splits above it. */
  ghost predicate Separated(node: Node, mem: seq<Sample>)
    requires InRange(node, |mem|)
  {
    match node
    case Leaf(_, _, _) => true
    case Split(lo, num, attr, point, left, right) =>
      && left.num > 0 && right.num > 0
      && left.lo == lo && right.lo == lo + left.num && left.num + right.num == num
      && (forall i :: left.lo <= i < left.lo + left.num ==> mem[i].inp[attr] < point)
      && (forall i :: right.lo <= i < right.lo + right.num ==> mem[i].inp[attr] >= point)
      && Separated(left, mem) && Separated(right, mem)
  }

  lemma {:induction false} SplitSizes(s: seq<Sample>, attr: Attr, point: real)
    ensures |LeftOf(s, attr, point)| + |RightOf(s, attr, point)| == |s|
    ensures multiset(LeftOf(s, attr, point)) + multiset(RightOf(s, attr, point)) == multiset(s)
  {
    FilterSplits(IsLeft(attr, point), IsRight(attr, point), s);
  }

  /** Building permutes the samples: none is lost, duplicated or invented. */
  lemma {:induction false} ArrangedIsPermutation(node: Node, s: seq<Sample>)
    ensures multiset(Arranged(node, s)) == multiset(s)
    ensures |Arranged(node, s)| == |s|
  {
    match node
    case Leaf(_, _, _) =>
    case Split(_, _, attr, point, left, right) =>
      ArrangedIsPermutation(left, LeftOf(s, attr, point));
      ArrangedIsPermutation(right, RightOf(s, attr, point));
      SplitSizes(s, attr, point);
  }

  ghost predicate Holds(mem: seq<Sample>, lo: nat, s: seq<Sample>) {
    lo + |s| <= |mem| && mem[lo..lo + |s|] == s
  }

  /** The memory `mem` is what building `node` makes of a memory that held the samples `s` in the node's range. */
  ghost predicate Built(node: Node, s: seq<Sample>, mem: seq<Sample>) {
    Covers(node, s) && Holds(mem, node.lo, Arranged(node, s)) && InRange(node, |mem|)
  }

  lemma ConcatRanges(mem: seq<Sample>, lo: nat, l: seq<Sample>, r: seq<Sample>)
    requires Holds(mem, lo, l + r)
    ensures Holds(mem, lo, l) && Holds(mem, lo + |l|, r)
  {
    var all := mem[lo..lo + |l + r|];
    assert mem[lo..lo + |l|] == all[..|l|];
    assert mem[lo + |l|..lo + |l| + |r|] == all[|l|..];
  }

  lemma ChildRanges(node: Node, s: seq<Sample>, mem: seq<Sample>)
    requires node.Split? && Covers(node, s) && Holds(mem, node.lo, Arranged(node, s))
    ensures Holds(mem, node.left.lo, Arranged(node.left, LeftOf(s, node.attr, node.point)))
    ensures Holds(mem, node.right.lo, Arranged(node.right, RightOf(s, node.attr, node.point)))
  {
    var l, r := LeftOf(s, node.attr, node.point), RightOf(s, node.attr, node.point);
    ArrangedIsPermutation(node.left, l);
    ConcatRanges(mem, node.lo, Arranged(node.left, l), Arranged(node.right, r));
  }

  lemma {:induction false} CoversInRange(node: Node, s: seq<Sample>, size: nat)
    requires Covers(node, s) && node.lo + |s| <= size
    ensures InRange(node, size)
  {
    match node
    case Leaf(_, _, _) =>
    case Split(_, _, attr, point, left, right) =>
      SplitSizes(s, attr, point);
      CoversInRange(left, LeftOf(s, attr, point), size);
      CoversInRange(right, RightOf(s, attr, point), size);
  }

  /** What the samples of a range all satisfy, they satisfy where they have been moved to. */
  lemma RangeMembers(node: Node, p: Sample -> bool, s: seq<Sample>, mem: seq<Sample>)
    requires Holds(mem, node.lo, Arranged(node, Filter(p, s)))
    requires node.num == |Filter(p, s)|
    ensures forall i :: node.lo <= i < node.lo + node.num ==> i < |mem| && p(mem[i])
  {
    var part := Filter(p, s);
    var arranged := Arranged(node, part);
    FilterMembers(p, s);
    ArrangedIsPermutation(node, part);
    AllSatisfy(arranged, part, p);
    forall i | node.lo <= i < node.lo + node.num ensures i < |mem| && p(mem[i]) {
      assert mem[i] == mem[node.lo..node.lo + node.num][i - node.lo] == arranged[i - node.lo];
    }
  }

  /** A permutation has the same members. */
  lemma AllSatisfy(a: seq<Sample>, b: seq<Sample>, p: Sample -> bool)
    requires multiset(a) == multiset(b) && forall k :: 0 <= k < |b| ==> p(b[k])
    ensures forall k :: 0 <= k < |a| ==> p(a[k])
  {
    forall k | 0 <= k < |a|
      ensures p(a[k])
    {
      assert a[k] in multiset(b);
    }
  }

  /** Two non-empty, adjacent sub-ranges, each strictly on its own side of the split, at every node. */
  lemma {:induction false} BuiltIsSeparated(node: Node, s: seq<Sample>, mem: seq<Sample>)
    requires Built(node, s, mem)
    ensures Separated(node, mem)
  {
    if node.Split? {
      SplitSizes(s, node.attr, node.point);
      ChildRanges(node, s, mem);
      RangeMembers(node.left, IsLeft(node.attr, node.point), s, mem);
      RangeMembers(node.right, IsRight(node.attr, node.point), s, mem);
      BuiltIsSeparated(node.left, LeftOf(s, node.attr, node.point), mem);
      BuiltIsSeparated(node.right, RightOf(s, node.attr, node.point), mem);
    }
  }

  /** The scan of one side is the scan of the whole for a query on that side. */
  lemma ScanSide(node: Node, s: seq<Sample>, query: seq<real>)
    requires node.Split? && |query| == MAX_COORDS
    ensures LinearScan(node, s, query) == LinearScan(Child(node, query), Part(node, s, query), query)
  {
    var left := query[node.attr] < node.point;
    var side := if left then IsLeft(node.attr, node.point) else IsRight(node.attr, node.point);
    FilterTwice(OnPath(Child(node, query), query), side, s);
    FilterSame(OnPath(node, query), Both(OnPath(Child(node, query), query), side), s);
  }

  lemma Descend(node: Node, s: seq<Sample>, mem: seq<Sample>, query: seq<real>)
    requires node.Split? && Built(node, s, mem) && |query| == MAX_COORDS
    ensures Built(Child(node, query), Part(node, s, query), mem)
  {
    ChildRanges(node, s, mem);
  }

  lemma LeafRead(node: Node, s: seq<Sample>, mem: seq<Sample>, query: seq<real>)
    requires node.Leaf? && Built(node, s, mem) && |query| == MAX_COORDS
    ensures LinearScan(node, s, query) == s
    ensures node.constant ==> s != []
    ensures Read(node, mem, query) == if node.constant then [s[0]] else s
  {
    FilterAll(OnPath(node, query), s);
    assert s != [] ==> mem[node.lo] == mem[node.lo..node.lo + |s|][0];
  }

  /**
   The index agrees with the linear scan: reading returns exactly the samples on the query's path, in
   their original order and as often as they were stored; a constant leaf returns the first of them.
   */
  lemma {:induction false} ReadIsLinearScan(node: Node, s: seq<Sample>, mem: seq<Sample>, query: seq<real>)
    requires Built(node, s, mem) && |query| == MAX_COORDS
    ensures LeafOf(node, query).constant ==> LinearScan(node, s, query) != []
    ensures Read(node, mem, query) ==
            if LeafOf(node, query).constant then [LinearScan(node, s, query)[0]] else LinearScan(node, s, query)
  {
    if node.Leaf? {
      LeafRead(node, s, mem, query);
    } else {
      Descend(node, s, mem, query);
      ScanSide(node, s, query);
      ReadIsLinearScan(Child(node, query), Part(node, s, query), mem, query);
    }
  }

  /** What a tree grown over the samples `s` answers to a query, without the index. */
  function Answer(node: Node, s: seq<Sample>, query: seq<real>): seq<Sample>
    requires |query| == MAX_COORDS
  {
    var found := LinearScan(node, s, query);
    if LeafOf(node, query).constant then found[..if found == [] then 0 else 1] else found
  }

  // ----- Variances -----

  /** One output of all samples. */
  function Column(s: seq<Sample>, j: Attr): (r: seq<real>)
    ensures |r| == |s|
  {
    seq(|s|, i requires 0 <= i < |s| => s[i].out[j])
  }

  type Outputs = k: nat | k <= MAX_COORDS witness 0

  function Variances(s: seq<Sample>, outputs: Outputs): seq<real>
    requires s != []
  {
    seq(outputs, j requires 0 <= j < outputs => Variance(Column(s, j)))
  }

  /** What the code computes for the right side: the accumulator starts at the parent's variance `v`. */
  function InflatedVariances(s: seq<Sample>, v: seq<real>): seq<real>
    requires s != [] && |v| <= MAX_COORDS
  {
    seq(|v|, j requires 0 <= j < |v| => (v[j] + SquaredDeviations(Column(s, j), Mean(Column(s, j)))) / |s| as real)
  }

  const NO_VARIANCE: real := 0.00001

  /** The node was grown from samples `s` with declared variances `v`, for some choice of the splits. */
  ghost predicate Grown(node: Node, s: seq<Sample>, v: seq<real>, c: Config)
    requires c.Valid() && |v| == c.outputs
  {
    match node
    case Leaf(_, _, constant) =>
      && (constant <==> |s| >= c.leafSize && Sum(v) < NO_VARIANCE)
      && (!constant ==> |s| < c.leafSize || c.splits == 0 || SameInputs(s, c.inputs))
    case Split(_, _, attr, point, left, right) =>
      && |s| >= c.leafSize && Sum(v) >= NO_VARIANCE && attr < c.inputs && NonTrivial(s, attr, point)
      && (var l, r := LeftOf(s, attr, point), RightOf(s, attr, point);
          && Grown(left, l, Variances(l, c.outputs), c)
          && Grown(right, r, InflatedVariances(r, v), c))
  }

  /** Declared variances bound the true ones. */
  ghost predicate Bounds(v: seq<real>, s: seq<Sample>) {
    |v| <= MAX_COORDS && (s != [] ==> forall j :: 0 <= j < |v| ==> v[j] >= Variance(Column(s, j)))
  }

  lemma Quotients(a: real, b: real, n: real)
    requires a >= 0.0 && n > 0.0
    ensures a / n >= 0.0
    ensures (a + b) / n == b / n + a / n
  {
  }

  lemma VarianceNonNegative(s: seq<Sample>, j: Attr)
    requires s != []
    ensures Variance(Column(s, j)) >= 0.0
  {
    Quotients(SquaredDeviations(Column(s, j), Mean(Column(s, j))), 0.0, |s| as real);
  }

  /** Starting the right accumulator at the parent's variance can only overstate the right variance. */
  lemma InflatedBounds(s: seq<Sample>, parent: seq<Sample>, v: seq<real>)
    requires s != [] && parent != [] && Bounds(v, parent)
    ensures Bounds(InflatedVariances(s, v), s)
    ensures forall j :: 0 <= j < |v| ==> InflatedVariances(s, v)[j] == Variance(Column(s, j)) + v[j] / |s| as real
  {
    forall j | 0 <= j < |v|
      ensures InflatedVariances(s, v)[j] >= Variance(Column(s, j))
      ensures InflatedVariances(s, v)[j] == Variance(Column(s, j)) + v[j] / |s| as real
    {
      VarianceNonNegative(parent, j);
      Quotients(v[j], SquaredDeviations(Column(s, j), Mean(Column(s, j))), |s| as real);
    }
  }

  lemma {:induction false} SumMonotone(a: seq<real>, b: seq<real>)
    requires |a| == |b| && forall j :: 0 <= j < |a| ==> a[j] <= b[j]
    ensures Sum(a) <= Sum(b)
  {
    if a != [] {
      SumMonotone(a[1..], b[1..]);
    }
  }

  /** The declared variances of the child a query descends to. */
  function PartVariances(node: Node, s: seq<Sample>, v: seq<real>, query: seq<real>): seq<real>
    requires node.Split? && |query| == MAX_COORDS && NonTrivial(s, node.attr, node.point) && |v| <= MAX_COORDS
  {
    if query[node.attr] < node.point then Variances(Part(node, s, query), |v|)
    else InflatedVariances(Part(node, s, query), v)
  }

  lemma PartBounds(node: Node, s: seq<Sample>, v: seq<real>, query: seq<real>)
    requires node.Split? && |query| == MAX_COORDS && NonTrivial(s, node.attr, node.point) && Bounds(v, s)
    ensures Bounds(PartVariances(node, s, v, query), Part(node, s, query))
  {
    if !(query[node.attr] < node.point) {
      InflatedBounds(Part(node, s, query), s, v);
    }
  }

  /** The samples a query's leaf holds have true summed variance below the threshold if the leaf is constant. */
  lemma {:induction false} ConstantLeafHasNoVariance(node: Node, s: seq<Sample>, v: seq<real>, c: Config, query: seq<real>)
    requires c.Valid() && |v| == c.outputs && Bounds(v, s) && |query| == MAX_COORDS
    requires Grown(node, s, v, c) && Covers(node, s)
    requires LeafOf(node, query).constant
    ensures LinearScan(node, s, query) != []
    ensures Sum(Variances(LinearScan(node, s, query), c.outputs)) < NO_VARIANCE
  {
    if node.Leaf? {
      FilterAll(OnPath(node, query), s);
      SumMonotone(Variances(s, c.outputs), v);
    } else {
      ScanSide(node, s, query);
      PartBounds(node, s, v, query);
      ConstantLeafHasNoVariance(Child(node, query), Part(node, s, query), PartVariances(node, s, v, query), c, query);
    }
  }

  /** A non-constant leaf stopped growing for one of the three reasons the code has. */
  lemma {:induction false} LeafStopsForAReason(node: Node, s: seq<Sample>, v: seq<real>, c: Config, query: seq<real>)
    requires c.Valid() && |v| == c.outputs && Grown(node, s, v, c) && |query| == MAX_COORDS
    requires !LeafOf(node, query).constant
    ensures var found := LinearScan(node, s, query);
            |found| < c.leafSize || c.splits == 0 || SameInputs(found, c.inputs)
  {
    if node.Leaf? {
      FilterAll(OnPath(node, query), s);
    } else {
      ScanSide(node, s, query);
      LeafStopsForAReason(Child(node, query), Part(node, s, query), PartVariances(node, s, v, query), c, query);
    }
  }

  // ----- Finding a stored sample again -----

  ghost predicate SameQuery(x: seq<real>, query: seq<real>, inputs: nat) {
    |x| == |query| == MAX_COORDS && inputs <= MAX_COORDS && forall j :: 0 <= j < inputs ==> x[j] == query[j]
  }

  lemma {:induction false} OnOwnPath(node: Node, s: seq<Sample>, v: seq<real>, c: Config, x: seq<real>, query: seq<real>)
    requires c.Valid() && |v| == c.outputs && Grown(node, s, v, c) && SameQuery(x, query, c.inputs)
    ensures SamePath(node, x, query)
  {
    if node.Split? {
      OnOwnPath(Child(node, query), Part(node, s, query), PartVariances(node, s, v, query), c, x, query);
    }
  }

  /** A stored sample is found by its own input, unless its leaf is constant and another sample stands for it. */
  lemma StoredSampleIsFound(node: Node, s: seq<Sample>, v: seq<real>, c: Config, mem: seq<Sample>, x: Sample,
                            query: seq<real>)
    requires c.Valid() && |v| == c.outputs && Grown(node, s, v, c) && Built(node, s, mem)
    requires x in s && SameQuery(x.inp, query, c.inputs)
    ensures Read(node, mem, query) != []
    ensures !LeafOf(node, query).constant ==> x in Read(node, mem, query)
  {
    OnOwnPath(node, s, v, c, x.inp, query);
    FilterMembers(OnPath(node, query), s);
    ReadIsLinearScan(node, s, mem, query);
    assert x in LinearScan(node, s, query);
  }
}
