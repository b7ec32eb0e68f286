/**
 Eligibility traces as values (base/include/grl/trace.h): a truncated queue of
 sparse projections, compared with the dense eligibility vector that it stands
 for.
 */
module TraceSpec {
  import opened Reals

  /** `IndexProjection::invalid_index()`: (size_t)-1. */
  const INVALID: nat := 0xFFFF_FFFF_FFFF_FFFF

  /** A sparse projection: its live indices and their weights; boolean without weights. */
  datatype Features = Features(indices: seq<nat>, weights: seq<real>)

  /** A queued projection with the decay it was added with. */
  datatype Item = Item(features: Features, decay: real)

  /** One weight for every index, unless the projection is boolean. */
  predicate IsShaped(p: Features) {
    p.weights != [] ==> |p.weights| == |p.indices|
  }

  /** The queue, oldest item first, and the stored `total_decay_`. */
  datatype Queue = Queue(items: seq<Item>, total: real)

  const EMPTY := Queue([], 1.0)

  /** Boolean `ssub`: every index that the new projection also has becomes invalid. */
  function Ssub(indices: seq<nat>, rhs: seq<nat>): (r: seq<nat>)
    ensures |r| == |indices|
  {
    seq(|indices|, i requires 0 <= i < |indices| => if indices[i] in rhs then INVALID else indices[i])
  }

  ghost predicate AllInvalid(indices: seq<nat>) {
    forall i :: 0 <= i < |indices| ==> indices[i] == INVALID
  }

  /** Subtracting twice is subtracting once, and a projection subtracted from itself takes nothing away any more. */
  lemma SsubAgain(indices: seq<nat>, rhs: seq<nat>)
    ensures Ssub(Ssub(indices, rhs), rhs) == Ssub(indices, rhs)
    ensures AllInvalid(Ssub(rhs, rhs)) && Ssub(indices, Ssub(rhs, rhs)) == indices
  {
  }

  function Max0(x: real): real {
    if x > 0.0 then x else 0.0
  }

  /** Weight left after subtracting, in order, every matching weight of the other projection. */
  function Saturated(w: real, index: nat, rhs: Features, upto: nat): real
    requires IsShaped(rhs) && rhs.weights != [] && upto <= |rhs.indices|
  {
    if upto == 0 then w
    else
      var v := Saturated(w, index, rhs, upto - 1);
      if rhs.indices[upto - 1] == index then Max0(v - rhs.weights[upto - 1]) else v
  }

  function SsubWeights(p: Features, rhs: Features): (r: seq<real>)
    requires IsShaped(p) && IsShaped(rhs) && p.weights != [] && rhs.weights != []
    ensures |r| == |p.weights|
  {
    seq(|p.weights|, i requires 0 <= i < |p.weights| => Saturated(p.weights[i], p.indices[i], rhs, |rhs.indices|))
  }

  /** `ssub` by another projection: by weight only if both have weights. */
  function Less(p: Features, rhs: Features): (r: Features)
    requires IsShaped(p) && IsShaped(rhs)
    ensures IsShaped(r) && |r.indices| == |p.indices|
  {
    if p.weights == [] || rhs.weights == [] then Features(Ssub(p.indices, rhs.indices), p.weights)
    else Features(p.indices, SsubWeights(p, rhs))
  }

  ghost predicate AllShaped(items: seq<Item>) {
    forall i :: 0 <= i < |items| ==> IsShaped(items[i].features)
  }

  function SsubAll(items: seq<Item>, rhs: Features): (r: seq<Item>)
    requires AllShaped(items) && IsShaped(rhs)
    ensures |r| == |items| && AllShaped(r)
  {
    seq(|items|, i requires 0 <= i < |items| => Item(Less(items[i].features, rhs), items[i].decay))
  }

  /** Drop items from the front while the total decay is below the threshold and more than one remains. */
  function Trim(q: Queue, threshold: real): (r: Queue)
    requires forall i :: 0 <= i < |q.items| ==> q.items[i].decay > 0.0
    decreases |q.items|
  {
    if q.total < threshold && |q.items| > 1
    then Trim(Queue(q.items[1..], q.total / q.items[0].decay), threshold)
    else q
  }

  const REPLACING: real := 0.01
  const ACCUMULATING: real := 0.0001

  predicate Positive(items: seq<Item>) {
    forall i :: 0 <= i < |items| ==> 0.0 < items[i].decay <= 1.0
  }

  /** What is left of the queue when an addition with this decay begins. */
  function Survivors(q: Queue, decay: real, threshold: real): Queue {
    if decay < threshold then EMPTY else q
  }

  /** `ReplacingEnumeratedTrace::add` for a projection with these indices. */
  function AddReplacing(q: Queue, item: Item): Queue
    requires Positive(q.items) && 0.0 < item.decay <= 1.0 && AllShaped(q.items) && IsShaped(item.features)
  {
    var s := Survivors(q, item.decay, REPLACING);
    Trim(Queue(SsubAll(s.items, item.features) + [item], Times(item.decay, s.total)), REPLACING)
  }

  /** `AccumulatingEnumeratedTrace::add`: no subtraction, and a lower threshold. */
  function AddAccumulating(q: Queue, item: Item): Queue
    requires Positive(q.items) && 0.0 < item.decay <= 1.0
  {
    var s := Survivors(q, item.decay, ACCUMULATING);
    Trim(Queue(s.items + [item], Times(item.decay, s.total)), ACCUMULATING)
  }

  // ----- Iterator weights -----

  /** Product of the decays of the items. */
  function Product(items: seq<Item>): (r: real) {
    if items == [] then 1.0 else Times(items[|items| - 1].decay, Product(items[..|items| - 1]))
  }

  /** The iterator's weight after `k` increments: the newest `k` decays multiplied together. */
  function Weight(items: seq<Item>, k: nat): real
    requires k <= |items|
  {
    Product(items[|items| - k..])
  }

  lemma {:induction false} ProductRange(items: seq<Item>)
    requires Positive(items)
    ensures 0.0 < Product(items) <= 1.0
  {
    if items != [] {
      var init := items[..|items| - 1];
      ProductRange(init);
      MulRange(Product(init), items[|items| - 1].decay);
    }
  }

  lemma MulRange(a: real, d: real)
    requires 0.0 < a <= 1.0 && 0.0 < d <= 1.0
    ensures 0.0 < Times(d, a) <= a
  {
  }

  /** The oldest decay is one factor of the total. */
  lemma {:induction false} ProductFront(items: seq<Item>)
    requires items != []
    ensures Product(items) == Times(items[0].decay, Product(items[1..]))
  {
    if |items| > 1 {
      var init, last := items[..|items| - 1], items[|items| - 1];
      ProductFront(init);
      assert items[1..][..|items| - 2] == init[1..];
      assert items[1..][|items| - 2] == last;
    }
  }

  lemma ProductPush(items: seq<Item>, item: Item)
    ensures Product(items + [item]) == Times(item.decay, Product(items))
  {
    assert (items + [item])[..|items|] == items;
  }

  lemma {:induction false} ProductSameDecays(a: seq<Item>, b: seq<Item>)
    requires |a| == |b| && forall i :: 0 <= i < |a| ==> a[i].decay == b[i].decay
    ensures Product(a) == Product(b)
  {
    if a != [] {
      ProductSameDecays(a[..|a| - 1], b[..|b| - 1]);
    }
  }

  lemma DivCancels(d: real, p: real)
    requires d > 0.0
    ensures Times(d, p) / d == p
  {
  }

  /** The stored total is the product of the stored decays, and the cut-off has been applied. */
  ghost predicate Consistent(q: Queue, threshold: real) {
    && Positive(q.items) && q.total == Product(q.items)
    && (|q.items| <= 1 || q.total >= threshold)
  }

  /** One pop divides the oldest decay out of the total again. */
  lemma TrimPops(q: Queue, threshold: real)
    requires Positive(q.items) && |q.items| > 1 && q.total == Product(q.items) && q.total < threshold
    ensures Trim(q, threshold) == Trim(Queue(q.items[1..], Product(q.items[1..])), threshold)
    ensures Times(q.items[0].decay, Product(q.items[1..])) < threshold
  {
    ProductFront(q.items);
    DivCancels(q.items[0].decay, Product(q.items[1..]));
  }

  lemma {:induction false} TrimConsistent(q: Queue, threshold: real)
    requires Positive(q.items) && q.items != [] && q.total == Product(q.items)
    ensures Consistent(Trim(q, threshold), threshold)
    ensures var r := Trim(q, threshold); 0 < |r.items| <= |q.items| && r.items == q.items[|q.items| - |r.items|..]
    decreases |q.items|
  {
    if q.total < threshold && |q.items| > 1 {
      var rest := Queue(q.items[1..], Product(q.items[1..]));
      TrimPops(q, threshold);
      TrimConsistent(rest, threshold);
      SuffixOfRest(q.items, |Trim(rest, threshold).items|);
    }
  }

  lemma SuffixOfRest(items: seq<Item>, k: nat)
    requires k < |items|
    ensures items[1..][|items| - 1 - k..] == items[|items| - k..]
  {
  }

  /** What both additions do once the survivors are known: push, multiply the total, trim. */
  function Push(items: seq<Item>, item: Item, threshold: real): Queue
    requires Positive(items) && 0.0 < item.decay <= 1.0
  {
    Trim(Queue(items + [item], Times(item.decay, Product(items))), threshold)
  }

  lemma PushConsistent(items: seq<Item>, item: Item, threshold: real)
    requires Positive(items) && 0.0 < item.decay <= 1.0
    ensures Consistent(Push(items, item, threshold), threshold)
    ensures var r := Push(items, item, threshold).items; r != [] && r[|r| - 1] == item
  {
    ProductPush(items, item);
    TrimConsistent(Queue(items + [item], Times(item.decay, Product(items))), threshold);
  }

  lemma AddIsPush(q: Queue, item: Item)
    requires Positive(q.items) && q.total == Product(q.items) && 0.0 < item.decay <= 1.0
    ensures AddAccumulating(q, item) == Push(Survivors(q, item.decay, ACCUMULATING).items, item, ACCUMULATING)
  {
    var s := Survivors(q, item.decay, ACCUMULATING);
    assert s.total == Product(s.items);
  }

  lemma AddReplacingIsPush(q: Queue, item: Item)
    requires Positive(q.items) && q.total == Product(q.items) && 0.0 < item.decay <= 1.0
    requires AllShaped(q.items) && IsShaped(item.features)
    ensures AddReplacing(q, item) == Push(SsubAll(Survivors(q, item.decay, REPLACING).items, item.features), item, REPLACING)
  {
    var s := Survivors(q, item.decay, REPLACING);
    ProductSameDecays(s.items, SsubAll(s.items, item.features));
    assert s.total == Product(s.items);
  }

  lemma AccumulatingConsistent(q: Queue, item: Item)
    requires Positive(q.items) && q.total == Product(q.items) && 0.0 < item.decay <= 1.0
    ensures Consistent(AddAccumulating(q, item), ACCUMULATING)
    ensures var r := AddAccumulating(q, item).items; r != [] && r[|r| - 1] == item
  {
    AddIsPush(q, item);
    PushConsistent(Survivors(q, item.decay, ACCUMULATING).items, item, ACCUMULATING);
  }

  lemma ReplacingConsistent(q: Queue, item: Item)
    requires Positive(q.items) && q.total == Product(q.items) && 0.0 < item.decay <= 1.0
    requires AllShaped(q.items) && IsShaped(item.features)
    ensures Consistent(AddReplacing(q, item), REPLACING)
    ensures var r := AddReplacing(q, item).items; r != [] && r[|r| - 1] == item
  {
    AddReplacingIsPush(q, item);
    PushConsistent(SsubAll(Survivors(q, item.decay, REPLACING).items, item.features), item, REPLACING);
  }

  lemma ReplacingShaped(q: Queue, item: Item)
    requires Positive(q.items) && q.total == Product(q.items) && 0.0 < item.decay <= 1.0
    requires AllShaped(q.items) && IsShaped(item.features)
    ensures AllShaped(AddReplacing(q, item).items)
  {
    AddReplacingIsPush(q, item);
    PushShaped(SsubAll(Survivors(q, item.decay, REPLACING).items, item.features), item, REPLACING);
  }

  /** Total decay and cut-off are kept by every addition, and the new item is the newest. */
  lemma AddConsistent(q: Queue, item: Item)
    requires Positive(q.items) && q.total == Product(q.items) && 0.0 < item.decay <= 1.0
    requires AllShaped(q.items) && IsShaped(item.features)
    ensures Consistent(AddReplacing(q, item), REPLACING) && Consistent(AddAccumulating(q, item), ACCUMULATING)
    ensures var r := AddReplacing(q, item).items; r != [] && r[|r| - 1] == item && AllShaped(r)
    ensures var r := AddAccumulating(q, item).items; r != [] && r[|r| - 1] == item
  {
    ReplacingConsistent(q, item);
    ReplacingShaped(q, item);
    AccumulatingConsistent(q, item);
  }

  lemma {:induction false} TrimShaped(q: Queue, threshold: real)
    requires Positive(q.items) && AllShaped(q.items)
    ensures AllShaped(Trim(q, threshold).items)
    decreases |q.items|
  {
    if q.total < threshold && |q.items| > 1 {
      TrimShaped(Queue(q.items[1..], q.total / q.items[0].decay), threshold);
    }
  }

  lemma MoreShaped(items: seq<Item>, item: Item)
    requires AllShaped(items) && IsShaped(item.features)
    ensures AllShaped(items + [item])
  {
  }

  lemma PushShaped(items: seq<Item>, item: Item, threshold: real)
    requires Positive(items) && 0.0 < item.decay <= 1.0 && AllShaped(items) && IsShaped(item.features)
    ensures AllShaped(Push(items, item, threshold).items)
  {
    MoreShaped(items, item);
    TrimShaped(Queue(items + [item], Times(item.decay, Product(items))), threshold);
  }

  /** One iterator increment multiplies the weight by a decay, so weights never increase. */
  lemma WeightStep(items: seq<Item>, k: nat)
    requires Positive(items) && k < |items|
    ensures Weight(items, 0) == 1.0
    ensures Weight(items, k + 1) == Times(items[|items| - 1 - k].decay, Weight(items, k))
    ensures 0.0 < Weight(items, k + 1) <= Weight(items, k) <= 1.0
  {
    var tail, more := items[|items| - k..], items[|items| - k - 1..];
    ProductFront(more);
    assert more[1..] == tail;
    ProductRange(tail);
    MulRange(Product(tail), more[0].decay);
  }

  /** No weight falls below the total decay. */
  lemma {:induction false} WeightAboveTotal(items: seq<Item>, k: nat)
    requires Positive(items) && k <= |items|
    ensures Product(items) <= Weight(items, k)
    decreases |items| - k
  {
    if k < |items| {
      WeightStep(items, k);
      WeightAboveTotal(items, k + 1);
    } else {
      assert items[0..] == items;
    }
  }

  /** So the update loop's cut-off at 0.001 never skips an item of a replacing trace. */
  lemma NoItemIsSkipped(q: Queue, k: nat)
    requires Consistent(q, REPLACING) && k < |q.items|
    ensures Weight(q.items, k) >= REPLACING
  {
    WeightAboveTotal(q.items, k);
    if |q.items| == 1 {
      WeightStep(q.items, 0);
    }
  }

  // ----- Eligibilities -----

  /** `LinearRepresentation::update` divides by no norm smaller than this. */
  const LEAST_NORM: real := 0.001

  function Norm(weights: seq<real>): (r: real)
    ensures r >= LEAST_NORM
  {
    var norm := SumOfSquares(weights);
    if norm < LEAST_NORM then LEAST_NORM else norm
  }

  /** The part of a change that one live index takes: all of it, or by its weight. */
  function Share(weights: seq<real>, i: nat): real {
    if weights == [] then 1.0 else if i < |weights| then Quotient(weights[i], Norm(weights)) else 0.0
  }

  /** The parts that the first `n` indices give to feature `f`, which may be repeated. */
  function Gain(p: Features, f: nat, n: nat): real
    requires n <= |p.indices|
  {
    if n == 0 then 0.0 else Gain(p, f, n - 1) + if p.indices[n - 1] == f then Share(p.weights, n - 1) else 0.0
  }

  /** How much of a change a projection gives to feature `f`: as often as it is live, if boolean. */
  function Active(p: Features, f: nat): real {
    Gain(p, f, |p.indices|)
  }

  /** Summed weight of the queue's items in which feature `f` is live: what an update adds to `f`. */
  function Sparse(items: seq<Item>, f: nat): real {
    if items == [] then 0.0
    else
      var last := items[|items| - 1];
      Active(last.features, f) + Times(last.decay, Sparse(items[..|items| - 1], f))
  }

  /** The textbook replacing rule on the dense vector: decay everything, then set the active features. */
  function Dense(history: seq<Item>, f: nat): real {
    if history == [] then 0.0
    else DenseStep(history[|history| - 1], f, Dense(history[..|history| - 1], f))
  }

  predicate Live(item: Item, f: nat) {
    f in item.features.indices
  }

  function DenseStep(item: Item, f: nat, dense: real): real {
    if Live(item, f) then Active(item.features, f) else Times(item.decay, dense)
  }

  ghost predicate Decays(history: seq<Item>, low: real) {
    low > 0.0 && forall i :: 0 <= i < |history| ==> low <= history[i].decay <= 1.0
  }

  /** The projections are boolean, and none of them has the feature more than `most` times. */
  ghost predicate AtMost(items: seq<Item>, f: nat, most: real) {
    most > 0.0 && forall i :: 0 <= i < |items| ==> HasAtMost(items[i].features, f, most)
  }

  predicate HasAtMost(p: Features, f: nat, most: real) {
    p.weights == [] && Active(p, f) <= most
  }

  lemma {:induction false} GainOfOthers(p: Features, f: nat, n: nat)
    requires n <= |p.indices| && f !in p.indices[..n]
    ensures Gain(p, f, n) == 0.0
  {
    if n > 0 {
      assert p.indices[..n] == p.indices[..n - 1] + [p.indices[n - 1]];
      GainOfOthers(p, f, n - 1);
    }
  }

  lemma ActiveOfOthers(p: Features, f: nat)
    requires f !in p.indices
    ensures Active(p, f) == 0.0
  {
    assert p.indices[..|p.indices|] == p.indices;
    GainOfOthers(p, f, |p.indices|);
  }

  lemma {:induction false} GainNotNegative(p: Features, f: nat, n: nat)
    requires n <= |p.indices| && p.weights == []
    ensures Gain(p, f, n) >= 0.0
  {
    if n > 0 {
      GainNotNegative(p, f, n - 1);
    }
  }

  /** A boolean projection that repeats no feature has each one once at most. */
  lemma {:induction false} DistinctGain(p: Features, f: nat, n: nat)
    requires n <= |p.indices| && p.weights == []
    requires forall i, j :: 0 <= i < j < |p.indices| ==> p.indices[i] != p.indices[j]
    ensures Gain(p, f, n) <= 1.0
  {
    if n > 0 {
      if p.indices[n - 1] == f {
        GainOfOthers(p, f, n - 1);
      } else {
        DistinctGain(p, f, n - 1);
      }
    }
  }

  /** Subtraction by index leaves a feature alone or takes all of it away. */
  lemma {:induction false} GainSsub(p: Features, rhs: seq<nat>, f: nat, n: nat)
    requires n <= |p.indices| && f != INVALID
    ensures Gain(Features(Ssub(p.indices, rhs), p.weights), f, n) == if f in rhs then 0.0 else Gain(p, f, n)
  {
    if n > 0 {
      GainSsub(p, rhs, f, n - 1);
    }
  }

  /** The queue after a history of additions, most recent last. */
  function Run(history: seq<Item>): (q: Queue)
    requires Positive(history) && AllShaped(history)
    ensures Positive(q.items) && q.total == Product(q.items) && AllShaped(q.items)
  {
    if history == [] then EMPTY
    else
      var q := Run(history[..|history| - 1]);
      AddConsistent(q, history[|history| - 1]);
      AddReplacing(q, history[|history| - 1])
  }

  /** Feature `f` is live in one item at most. */
  ghost predicate Single(items: seq<Item>, f: nat) {
    forall i, j :: 0 <= i < j < |items| ==> !(Live(items[i], f) && Live(items[j], f))
  }

  lemma {:induction false} SparseNone(items: seq<Item>, f: nat)
    requires forall i :: 0 <= i < |items| ==> !Live(items[i], f)
    ensures Sparse(items, f) == 0.0
  {
    if items != [] {
      ActiveOfOthers(items[|items| - 1].features, f);
      SparseNone(items[..|items| - 1], f);
    }
  }

  lemma SsubMember(indices: seq<nat>, rhs: seq<nat>, f: nat)
    requires f != INVALID
    ensures f in Ssub(indices, rhs) <==> f in indices && f !in rhs
  {
    if f in indices && f !in rhs {
      var i :| 0 <= i < |indices| && indices[i] == f;
      assert Ssub(indices, rhs)[i] == f;
    }
  }

  lemma SsubAllMember(items: seq<Item>, rhs: Features, f: nat)
    requires f != INVALID && AllShaped(items) && rhs.weights == []
    ensures forall i :: 0 <= i < |items| ==> (Live(SsubAll(items, rhs)[i], f) <==> Live(items[i], f) && f !in rhs.indices)
  {
    forall i | 0 <= i < |items|
      ensures Live(SsubAll(items, rhs)[i], f) <==> Live(items[i], f) && f !in rhs.indices
    {
      SsubMember(items[i].features.indices, rhs.indices, f);
    }
  }

  lemma SsubAllActive(items: seq<Item>, rhs: Features, f: nat)
    requires f != INVALID && AllShaped(items) && rhs.weights == []
    ensures forall i :: 0 <= i < |items| ==>
              Active(SsubAll(items, rhs)[i].features, f) == if f in rhs.indices then 0.0 else Active(items[i].features, f)
  {
    forall i | 0 <= i < |items|
      ensures Active(SsubAll(items, rhs)[i].features, f) == if f in rhs.indices then 0.0 else Active(items[i].features, f)
    {
      GainSsub(items[i].features, rhs.indices, f, |items[i].features.indices|);
    }
  }

  lemma SsubAllAtMost(items: seq<Item>, rhs: Features, f: nat, most: real)
    requires f != INVALID && AllShaped(items) && rhs.weights == [] && AtMost(items, f, most)
    ensures AtMost(SsubAll(items, rhs), f, most)
  {
    SsubAllActive(items, rhs, f);
    forall i | 0 <= i < |items|
      ensures HasAtMost(SsubAll(items, rhs)[i].features, f, most)
    {
      assert HasAtMost(items[i].features, f, most);
    }
  }

  /** Sparse eligibility only depends on how much of the feature the items have. */
  lemma {:induction false} SparseSame(a: seq<Item>, b: seq<Item>, f: nat)
    requires |a| == |b| && forall i :: 0 <= i < |a| ==> a[i].decay == b[i].decay
    requires forall i :: 0 <= i < |a| ==> Active(a[i].features, f) == Active(b[i].features, f)
    ensures Sparse(a, f) == Sparse(b, f)
  {
    if a != [] {
      SparseSame(a[..|a| - 1], b[..|b| - 1], f);
    }
  }

  lemma SparseSsub(items: seq<Item>, rhs: Features, f: nat)
    requires f != INVALID && AllShaped(items) && rhs.weights == []
    ensures Sparse(SsubAll(items, rhs), f) == if f in rhs.indices then 0.0 else Sparse(items, f)
  {
    if f in rhs.indices {
      SsubAllMember(items, rhs, f);
      SparseNone(SsubAll(items, rhs), f);
    } else {
      SsubAllActive(items, rhs, f);
      SparseSame(SsubAll(items, rhs), items, f);
    }
  }

  /** The front item contributes the product of the younger decays, times what it has of the feature. */
  lemma {:induction false} SparseFront(items: seq<Item>, f: nat)
    requires items != []
    ensures Sparse(items, f) == Times(Active(items[0].features, f), Product(items[1..])) + Sparse(items[1..], f)
  {
    var a := Active(items[0].features, f);
    if |items| > 1 {
      var init, last := items[..|items| - 1], items[|items| - 1];
      SparseFront(init, f);
      FrontAlgebra(last.decay, a, Product(init[1..]), Sparse(init[1..], f));
      assert items[1..][..|items| - 2] == init[1..];
      assert items[1..][|items| - 2] == last;
    } else {
      assert items[..0] == [];
      assert Times(items[0].decay, 0.0) == 0.0 && Times(a, 1.0) == a;
    }
  }

  lemma FrontAlgebra(d: real, a: real, p: real, s: real)
    ensures Times(d, Times(a, p) + s) == Times(a, Times(d, p)) + Times(d, s)
  {
  }

  /** `sparse` is the dense eligibility, or it is zero and the dense one is below the bound. */
  predicate Approximates(sparse: real, dense: real, bound: real) {
    sparse == dense || (sparse == 0.0 && 0.0 <= dense < bound)
  }

  /** Popping a front item forgets a weight below threshold / decay, and only of features live in it. */
  lemma {:induction false} TrimApproximates(q: Queue, f: nat, dense: real, low: real, most: real)
    requires Decays(q.items, low) && q.items != [] && q.total == Product(q.items)
    requires Single(q.items, f) && AtMost(q.items, f, most)
    requires Approximates(Sparse(q.items, f), dense, Bound(low, most))
    ensures var r := Trim(q, REPLACING).items;
            Approximates(Sparse(r, f), dense, Bound(low, most)) && Single(r, f) && Decays(r, low) && AtMost(r, f, most)
    decreases |q.items|
  {
    if q.total < REPLACING && |q.items| > 1 {
      TrimPops(q, REPLACING);
      PopApproximates(q.items, f, dense, low, most);
      TrimApproximates(Queue(q.items[1..], Product(q.items[1..])), f, dense, low, most);
    }
  }

  lemma PopApproximates(items: seq<Item>, f: nat, dense: real, low: real, most: real)
    requires Decays(items, low) && items != [] && Single(items, f) && AtMost(items, f, most)
    requires Times(items[0].decay, Product(items[1..])) < REPLACING
    requires Approximates(Sparse(items, f), dense, Bound(low, most))
    ensures Approximates(Sparse(items[1..], f), dense, Bound(low, most))
  {
    var p := items[0].features;
    SparseFront(items, f);
    if Live(items[0], f) {
      ProductRange(items[1..]);
      SparseNone(items[1..], f);
      assert HasAtMost(p, f, most);
      GainNotNegative(p, f, |p.indices|);
      BelowBound(items[0].decay, Product(items[1..]), low, Active(p, f), most);
    } else {
      ActiveOfOthers(p, f);
      assert Times(0.0, Product(items[1..])) == 0.0;
    }
  }

  /** What a truncated trace may forget: the threshold over the smallest decay, for each time a feature is live. */
  function Bound(low: real, most: real): real
    requires low > 0.0
  {
    Times(most, REPLACING / low)
  }

  lemma BelowBound(d: real, w: real, low: real, a: real, most: real)
    requires 0.0 < low <= d && w > 0.0 && Times(d, w) < REPLACING && 0.0 <= a <= most && most > 0.0
    ensures 0.0 <= Times(a, w) < Bound(low, most)
  {
    assert low * w <= d * w;
    assert REPLACING / low * low == REPLACING;
    assert w < REPLACING / low;
    assert Times(a, w) <= most * w < most * (REPLACING / low);
  }

  lemma {:induction false} DenseRange(history: seq<Item>, f: nat, low: real, most: real)
    requires Decays(history, low) && AtMost(history, f, most)
    ensures 0.0 <= Dense(history, f) <= most
  {
    if history != [] {
      var init, last := history[..|history| - 1], history[|history| - 1];
      DenseRange(init, f, low, most);
      TimesRange(last.decay, Dense(init, f));
      assert HasAtMost(last.features, f, most);
      GainNotNegative(last.features, f, |last.features.indices|);
    }
  }

  lemma TimesRange(d: real, e: real)
    requires 0.0 < d <= 1.0 && 0.0 <= e
    ensures 0.0 <= Times(d, e) <= e
  {
  }

  lemma TimesBelow(d: real, e: real, most: real)
    requires 0.0 < d < REPLACING && 0.0 <= e <= most && most > 0.0
    ensures Times(d, e) < Times(most, REPLACING)
  {
    assert d * e <= d * most < REPLACING * most;
  }

  /** Decaying keeps an approximation, because the bound is on an eligibility that only shrinks. */
  lemma DecayApproximates(d: real, sparse: real, dense: real, bound: real)
    requires 0.0 < d <= 1.0 && Approximates(sparse, dense, bound) && 0.0 <= dense
    ensures Approximates(Times(d, sparse), Times(d, dense), bound)
  {
    TimesRange(d, dense);
  }

  lemma BoundAboveThreshold(low: real, most: real)
    requires 0.0 < low <= 1.0 && most > 0.0
    ensures Bound(low, most) >= Times(most, REPLACING)
  {
    assert REPLACING / low * low == REPLACING;
    assert most * (REPLACING / low) >= most * REPLACING;
  }

  /** Clearing on a small decay forgets nothing that will not decay below the bound at once. */
  lemma DecayedApproximates(q: Queue, item: Item, f: nat, dense: real, low: real, most: real)
    requires 0.0 < low <= item.decay <= 1.0 && 0.0 <= dense <= most && most > 0.0
    requires Approximates(Sparse(q.items, f), dense, Bound(low, most))
    ensures Approximates(Times(item.decay, Sparse(Survivors(q, item.decay, REPLACING).items, f)),
                         Times(item.decay, dense), Bound(low, most))
  {
    if item.decay < REPLACING {
      BoundAboveThreshold(low, most);
      TimesRange(item.decay, dense);
      TimesBelow(item.decay, dense, most);
    } else {
      DecayApproximates(item.decay, Sparse(q.items, f), dense, Bound(low, most));
    }
  }

  lemma PushedApproximates(q: Queue, item: Item, f: nat, dense: real, low: real, most: real)
    requires f != INVALID && 0.0 < low <= item.decay <= 1.0 && 0.0 <= dense <= most && most > 0.0
    requires AllShaped(q.items) && item.features.weights == []
    requires Approximates(Sparse(q.items, f), dense, Bound(low, most))
    ensures var sub := SsubAll(Survivors(q, item.decay, REPLACING).items, item.features);
            Approximates(Sparse(sub + [item], f), DenseStep(item, f, dense), Bound(low, most))
  {
    var s := Survivors(q, item.decay, REPLACING);
    var sub := SsubAll(s.items, item.features);
    SparseSsub(s.items, item.features, f);
    assert (sub + [item])[..|sub|] == sub;
    if Live(item, f) {
      assert Times(item.decay, 0.0) == 0.0;
    } else {
      ActiveOfOthers(item.features, f);
      DecayedApproximates(q, item, f, dense, low, most);
    }
  }

  lemma PushedSingle(items: seq<Item>, item: Item, f: nat)
    requires f != INVALID && Single(items, f) && AllShaped(items) && item.features.weights == []
    ensures Single(SsubAll(items, item.features) + [item], f)
  {
    SsubAllMember(items, item.features, f);
  }

  lemma AddApproximates(q: Queue, item: Item, f: nat, dense: real, low: real, most: real)
    requires f != INVALID && Decays(q.items, low) && q.total == Product(q.items) && low <= item.decay <= 1.0
    requires AllShaped(q.items) && AtMost(q.items, f, most) && HasAtMost(item.features, f, most)
    requires Single(q.items, f) && 0.0 <= dense <= most && Approximates(Sparse(q.items, f), dense, Bound(low, most))
    ensures var r := AddReplacing(q, item).items;
            && Single(r, f) && Decays(r, low) && AtMost(r, f, most)
            && Approximates(Sparse(r, f), DenseStep(item, f, dense), Bound(low, most))
  {
    var s := Survivors(q, item.decay, REPLACING).items;
    var sub := SsubAll(s, item.features);
    AddReplacingIsPush(q, item);
    PushedApproximates(q, item, f, dense, low, most);
    PushedSingle(s, item, f);
    SsubAllAtMost(s, item.features, f, most);
    ProductPush(sub, item);
    TrimApproximates(Queue(sub + [item], Times(item.decay, Product(sub))), f, DenseStep(item, f, dense), low, most);
  }

  /**
   The truncated sparse trace stands in for the dense one: after any history of boolean projections with decays in
   [low, 1], the sparse eligibility of every feature is exactly the dense one, or zero where the dense one is below
   0.01 / low for each time that a projection can have the feature (once, if it repeats none: DistinctGain).
   */
  lemma {:induction false} SparseStandsForDense(history: seq<Item>, f: nat, low: real, most: real)
    requires f != INVALID && Decays(history, low) && AtMost(history, f, most)
    ensures AllShaped(history)
    ensures var r := Run(history).items;
            && Decays(r, low) && Single(r, f) && AtMost(r, f, most)
            && Approximates(Sparse(r, f), Dense(history, f), Bound(low, most))
  {
    HistoryIsShaped(history, f, most);
    if history != [] {
      var init, last := history[..|history| - 1], history[|history| - 1];
      SparseStandsForDense(init, f, low, most);
      DenseRange(init, f, low, most);
      assert HasAtMost(last.features, f, most);
      AddApproximates(Run(init), last, f, Dense(init, f), low, most);
    }
  }

  lemma HistoryIsShaped(history: seq<Item>, f: nat, most: real)
    requires AtMost(history, f, most)
    ensures AllShaped(history)
  {
    forall i | 0 <= i < |history|
      ensures IsShaped(history[i].features)
    {
      assert HasAtMost(history[i].features, f, most);
    }
  }

  // ----- Using the trace -----

  /** What is left to add to a feature after `k` iterations: the k-th weight times what the older items hold. */
  function Remaining(items: seq<Item>, k: nat, f: nat, c: real): real
    requires k <= |items|
  {
    Times(c, Times(Weight(items, k), Sparse(items[..|items| - k], f)))
  }

  lemma RemainingStep(items: seq<Item>, k: nat, f: nat, c: real)
    requires Positive(items) && k < |items|
    ensures Remaining(items, k, f, c) ==
            Times(c, Times(Weight(items, k), Active(items[|items| - 1 - k].features, f))) + Remaining(items, k + 1, f, c)
  {
    var n := |items| - k;
    WeightStep(items, k);
    assert items[..n][..n - 1] == items[..n - 1];
    WeightAlgebra(c, Weight(items, k), Active(items[n - 1].features, f), items[n - 1].decay, Sparse(items[..n - 1], f));
  }

  lemma RemainingEnds(items: seq<Item>, f: nat, c: real)
    ensures Remaining(items, 0, f, c) == Times(c, Sparse(items, f))
    ensures Remaining(items, |items|, f, c) == 0.0
  {
    assert items[..|items|] == items && items[|items|..] == [] && items[..0] == [];
    assert Times(1.0, Sparse(items, f)) == Sparse(items, f);
    assert Times(c, Times(Weight(items, |items|), 0.0)) == 0.0;
  }

  /** The parameters started at `start` and have been updated for the newest `k` items. */
  ghost predicate Progress(start: seq<real>, params: seq<real>, items: seq<Item>, k: nat, c: real) {
    |start| == |params| && k <= |items| &&
    forall f :: 0 <= f < |params| ==> params[f] + Remaining(items, k, f, c) == start[f] + Remaining(items, 0, f, c)
  }

  /** `after` is `before` with `delta` spread over the first `n` live indices, repeated ones as often as they occur. */
  ghost predicate Moved(before: seq<real>, after: seq<real>, p: Features, n: nat, delta: real) {
    |before| == |after| && n <= |p.indices| &&
    forall f :: 0 <= f < |after| ==> after[f] == before[f] + Times(delta, Gain(p, f, n))
  }

  /** One more index takes its part; an invalid one is no parameter. */
  lemma MovedStep(before: seq<real>, after: seq<real>, p: Features, n: nat, delta: real)
    requires n < |p.indices| && Moved(before, after, p, n, delta)
    ensures p.indices[n] >= |after| ==> Moved(before, after, p, n + 1, delta)
    ensures p.indices[n] < |after| ==>
              Moved(before, after[p.indices[n] := after[p.indices[n]] + Times(delta, Share(p.weights, n))], p, n + 1, delta)
  {
    forall f: nat
      ensures Times(delta, Gain(p, f, n + 1)) ==
              Times(delta, Gain(p, f, n)) + if p.indices[n] == f then Times(delta, Share(p.weights, n)) else 0.0
    {
      Distribute(delta, Gain(p, f, n), Share(p.weights, n));
    }
  }

  lemma ProgressStep(start: seq<real>, before: seq<real>, after: seq<real>, items: seq<Item>, k: nat, c: real)
    requires Positive(items) && k < |items| && Progress(start, before, items, k, c)
    requires var p := items[|items| - 1 - k].features;
             Moved(before, after, p, |p.indices|, Times(c, Weight(items, k)))
    ensures Progress(start, after, items, k + 1, c)
  {
    var p := items[|items| - 1 - k].features;
    forall f | 0 <= f < |after|
      ensures after[f] + Remaining(items, k + 1, f, c) == start[f] + Remaining(items, 0, f, c)
    {
      RemainingStep(items, k, f, c);
      TimesTwice(c, Weight(items, k), Active(p, f));
    }
  }

  lemma TimesTwice(a: real, b: real, c: real)
    ensures Times(Times(a, b), c) == Times(a, Times(b, c))
  {
  }

  /** Older items count with the product of the newer decays. */
  lemma {:induction false} SparseSplits(older: seq<Item>, newer: seq<Item>, f: nat)
    ensures Sparse(older + newer, f) == Sparse(newer, f) + Times(Product(newer), Sparse(older, f))
  {
    if newer == [] {
      assert older + newer == older;
      assert Times(1.0, Sparse(older, f)) == Sparse(older, f);
    } else {
      var init, last := newer[..|newer| - 1], newer[|newer| - 1];
      assert (older + newer)[..|older + newer| - 1] == older + init;
      SparseSplits(older, init, f);
      SplitAlgebra(last.decay, Sparse(init, f), Product(init), Sparse(older, f));
    }
  }

  lemma SplitAlgebra(d: real, a: real, p: real, b: real)
    ensures Times(d, a + Times(p, b)) == Times(d, a) + Times(Times(d, p), b)
  {
  }

  /** What is gone from the total is what the newest items hold. */
  lemma RemainingSplits(items: seq<Item>, k: nat, f: nat, c: real)
    requires k <= |items|
    ensures Remaining(items, 0, f, c) == Times(c, Sparse(items[|items| - k..], f)) + Remaining(items, k, f, c)
  {
    var older, newer := items[..|items| - k], items[|items| - k..];
    assert items == older + newer;
    SparseSplits(older, newer, f);
    RemainingEnds(items, f, c);
    Distribute(c, Sparse(newer, f), Times(Product(newer), Sparse(older, f)));
  }

  lemma Distribute(c: real, a: real, b: real)
    ensures Times(c, a + b) == Times(c, a) + Times(c, b)
  {
  }

  /** Every parameter has moved along its eligibility in the newest `k` items. */
  ghost predicate Updated(start: seq<real>, params: seq<real>, items: seq<Item>, k: nat, c: real) {
    |start| == |params| && k <= |items| &&
    forall f :: 0 <= f < |params| ==> params[f] == start[f] + Times(c, Sparse(items[|items| - k..], f))
  }

  lemma ProgressEnds(start: seq<real>, params: seq<real>, items: seq<Item>, k: nat, c: real)
    requires Progress(start, params, items, k, c)
    ensures Updated(start, params, items, k, c)
  {
    forall f | 0 <= f < |params|
      ensures params[f] == start[f] + Times(c, Sparse(items[|items| - k..], f))
    {
      RemainingSplits(items, k, f, c);
    }
  }

  /** Exactly the newest `used` items have a weight above the cut-off. */
  ghost predicate UsedAbove(items: seq<Item>, used: nat) {
    used <= |items| && forall k :: 0 <= k < |items| ==> (k < used <==> Weight(items, k) > CUTOFF)
  }

  lemma {:induction false} WeightsFall(items: seq<Item>, i: nat, k: nat)
    requires Positive(items) && i <= k <= |items|
    ensures Weight(items, k) <= Weight(items, i)
    decreases k
  {
    if i < k {
      WeightsFall(items, i, k - 1);
      WeightStep(items, k - 1);
    }
  }

  ghost predicate AllAbove(items: seq<Item>, k: nat) {
    k <= |items| && forall i :: 0 <= i < k ==> Weight(items, i) > CUTOFF
  }

  lemma AboveStep(items: seq<Item>, k: nat)
    requires AllAbove(items, k) && k < |items| && Weight(items, k) > CUTOFF
    ensures AllAbove(items, k + 1)
  {
  }

  /** A loop that stops at the first weight not above the cut-off has used the items above it. */
  lemma StopsAtCutoff(items: seq<Item>, used: nat)
    requires Positive(items) && AllAbove(items, used) && (used == |items| || Weight(items, used) <= CUTOFF)
    ensures UsedAbove(items, used)
  {
    forall k | used <= k < |items|
      ensures Weight(items, k) <= CUTOFF
    {
      WeightsFall(items, used, k);
    }
  }

  /** In a replacing trace all items are used. */
  lemma AllAreUsed(q: Queue, used: nat)
    requires Consistent(q, REPLACING) && UsedAbove(q.items, used)
    ensures used == |q.items|
  {
    if used < |q.items| {
      NoItemIsSkipped(q, used);
    }
  }

  lemma WeightAlgebra(c: real, w: real, a: real, d: real, s: real)
    ensures Times(c, Times(w, a + Times(d, s))) == Times(c, Times(w, a)) + Times(c, Times(Times(d, w), s))
  {
    assert w * (a + d * s) == w * a + d * w * s;
  }

  /**
   An update over a replacing trace follows the dense rule: after any history of additions, every parameter moves
   along its dense eligibility, or stays where that eligibility is below the bound.
   */
  lemma UpdateFollowsDense(history: seq<Item>, f: nat, low: real, most: real,
                           start: seq<real>, params: seq<real>, used: nat, c: real)
    requires f < |params| <= INVALID && Decays(history, low) && AtMost(history, f, most) && AllShaped(history)
    requires UsedAbove(Run(history).items, used) && Updated(start, params, Run(history).items, used, c)
    ensures || params[f] == start[f] + Times(c, Dense(history, f))
            || (params[f] == start[f] && 0.0 <= Dense(history, f) < Bound(low, most))
  {
    RunIsConsistent(history);
    AllMove(Run(history), f, start, params, used, c);
    SparseStandsForDense(history, f, low, most);
    MovesAlong(Sparse(Run(history).items, f), Dense(history, f), Bound(low, most), c);
  }

  lemma AllMove(q: Queue, f: nat, start: seq<real>, params: seq<real>, used: nat, c: real)
    requires f < |params| && Consistent(q, REPLACING) && UsedAbove(q.items, used) && Updated(start, params, q.items, used, c)
    ensures |start| == |params| && params[f] == start[f] + Times(c, Sparse(q.items, f))
  {
    AllAreUsed(q, used);
    assert q.items[|q.items| - used..] == q.items;
  }

  lemma MovesAlong(sparse: real, dense: real, bound: real, c: real)
    requires Approximates(sparse, dense, bound)
    ensures Times(c, sparse) == Times(c, dense) || (Times(c, sparse) == 0.0 && 0.0 <= dense < bound)
  {
    assert Times(c, 0.0) == 0.0;
  }

  lemma RunIsConsistent(history: seq<Item>)
    requires Positive(history) && AllShaped(history)
    ensures Consistent(Run(history), REPLACING)
  {
    if history != [] {
      AddConsistent(Run(history[..|history| - 1]), history[|history| - 1]);
    }
  }

  function OneFeature(f: nat, decay: real): Item {
    Item(Features([f], []), decay)
  }

  /** The accumulating trace keeps smaller weights than the update loop's cut-off, so there items are skipped. */
  lemma AccumulatingItemIsSkipped()
    ensures var first, second, third := OneFeature(1, 1.0), OneFeature(2, 0.02), OneFeature(3, 0.02);
            var q := AddAccumulating(AddAccumulating(AddAccumulating(EMPTY, first), second), third);
            q.items == [first, second, third] && 0.0 < Weight(q.items, 2) < CUTOFF
  {
    var first, second, third := OneFeature(1, 1.0), OneFeature(2, 0.02), OneFeature(3, 0.02);
    var q := Queue([first, second, third], 0.0004);
    assert AddAccumulating(EMPTY, first) == Queue([first], 1.0);
    assert AddAccumulating(Queue([first], 1.0), second) == Queue([first, second], 0.02);
    assert [first, second] + [third] == q.items;
    assert q.items[1..] == [second, third];
    assert [second, third][..1] == [second] && [second][..0] == [];
    assert Product([second]) == 0.02;
  }

  /** `Representation::update` stops at the first item whose weight is not above this. */
  const CUTOFF: real := 0.001
}
