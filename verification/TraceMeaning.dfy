/**
 What accumulating traces stand for (base/include/grl/trace.h), and what an update does to a reading
 (base/src/representations/linear.cpp).
 */
module TraceMeaning {
  import opened Reals
  import opened TraceSpec

  // ----- What a weighted projection keeps when another is subtracted -----

  predicate NotNegative(w: seq<real>) {
    forall i :: 0 <= i < |w| ==> w[i] >= 0.0
  }

  /** Sum of the weights that the first n features of a projection give to an index. */
  function Given(index: nat, p: Features, n: nat): real
    requires |p.weights| == |p.indices| && n <= |p.indices|
  {
    if n == 0 then 0.0 else Given(index, p, n - 1) + if p.indices[n - 1] == index then p.weights[n - 1] else 0.0
  }

  lemma {:induction false} GivenBounds(index: nat, p: Features, n: nat, k: nat)
    requires |p.weights| == |p.indices| && n <= |p.indices| && NotNegative(p.weights)
    ensures Given(index, p, n) >= 0.0
    ensures k < n && p.indices[k] == index ==> Given(index, p, n) >= p.weights[k]
  {
    if n > 0 {
      GivenBounds(index, p, n - 1, k);
    }
  }

  lemma {:induction false} SaturatedIsRest(w: real, index: nat, rhs: Features, n: nat)
    requires IsShaped(rhs) && rhs.weights != [] && n <= |rhs.indices| && NotNegative(rhs.weights)
    ensures Saturated(w, index, rhs, n) ==
            if index !in rhs.indices[..n] then w
            else if w > Given(index, rhs, n) then w - Given(index, rhs, n) else 0.0
    ensures index !in rhs.indices[..n] ==> Given(index, rhs, n) == 0.0
  {
    if n > 0 {
      SaturatedIsRest(w, index, rhs, n - 1);
      GivenBounds(index, rhs, n - 1, 0);
      assert rhs.indices[..n] == rhs.indices[..n - 1] + [rhs.indices[n - 1]];
    }
  }

  /**
   A feature that the other projection also has keeps what its weight exceeds the weights there by, if anything;
   the others keep their weights.
   */
  lemma WeightedDifference(p: Features, rhs: Features, i: nat)
    requires IsShaped(p) && IsShaped(rhs) && p.weights != [] && rhs.weights != [] && NotNegative(rhs.weights)
    requires i < |p.indices|
    ensures var r, given := Less(p, rhs), Given(p.indices[i], rhs, |rhs.indices|);
            r.indices == p.indices && |r.weights| == |p.weights| &&
            r.weights[i] == if p.indices[i] !in rhs.indices then p.weights[i]
                            else if p.weights[i] > given then p.weights[i] - given else 0.0
  {
    SaturatedIsRest(p.weights[i], p.indices[i], rhs, |rhs.indices|);
    assert rhs.indices[..|rhs.indices|] == rhs.indices;
  }

  /** A projection subtracted from itself keeps no weight. */
  lemma WeightedSelfDifference(p: Features, i: nat)
    requires IsShaped(p) && p.weights != [] && NotNegative(p.weights) && i < |p.indices|
    ensures Less(p, p).weights[i] == 0.0
  {
    WeightedDifference(p, p, i);
    GivenBounds(p.indices[i], p, |p.indices|, i);
  }

  // ----- Accumulating traces -----

  /** The queue after a history of accumulating additions, most recent last. */
  function RunAccumulating(history: seq<Item>): (q: Queue)
    requires Positive(history)
    ensures Positive(q.items) && q.total == Product(q.items)
  {
    if history == [] then EMPTY
    else
      var q := RunAccumulating(history[..|history| - 1]);
      AccumulatingConsistent(q, history[|history| - 1]);
      AddAccumulating(q, history[|history| - 1])
  }

  /** The accumulating rule on the dense vector: decay everything, then add the active features. */
  function Accumulated(history: seq<Item>, f: nat): real {
    if history == [] then 0.0
    else
      var last := history[|history| - 1];
      Times(last.decay, Accumulated(history[..|history| - 1], f)) + Active(last.features, f)
  }

  lemma {:induction false} AccumulatedIsSparse(history: seq<Item>, f: nat)
    ensures Accumulated(history, f) == Sparse(history, f)
  {
    if history != [] {
      AccumulatedIsSparse(history[..|history| - 1], f);
    }
  }

  /** The first n items of the history have all decayed below the bound. */
  ghost predicate Faded(history: seq<Item>, n: nat, bound: real) {
    n <= |history| && forall i {:trigger Since(history, i)} :: 0 <= i < n ==> Since(history, i) < bound
  }

  /** What is left of an item's weight: the decays of all newer items. */
  function Since(history: seq<Item>, i: nat): real
    requires i < |history|
  {
    Product(history[i + 1..])
  }

  lemma SinceGrows(history: seq<Item>, item: Item, i: nat)
    requires i < |history|
    ensures Since(history + [item], i) == Times(item.decay, Since(history, i))
  {
    assert (history + [item])[i + 1..] == history[i + 1..] + [item];
    ProductPush(history[i + 1..], item);
  }

  lemma SinceRest(items: seq<Item>, i: nat)
    requires i + 1 < |items|
    ensures Since(items[1..], i) == Since(items, i + 1)
  {
    assert items[1..][i + 1..] == items[i + 2..];
  }

  lemma FadedStep(items: seq<Item>, n: nat, bound: real)
    requires items != [] && Faded(items[1..], n, bound) && Since(items, 0) < bound
    ensures Faded(items, n + 1, bound)
  {
    forall i | 0 <= i < n + 1
      ensures Since(items, i) < bound
    {
      if i > 0 {
        SinceRest(items, i - 1);
      }
    }
  }

  /** Trimming drops items that have decayed below the threshold over the smallest decay. */
  lemma {:induction false} TrimDropsFaded(q: Queue, threshold: real, low: real)
    requires Decays(q.items, low) && q.items != [] && q.total == Product(q.items)
    ensures |Trim(q, threshold).items| <= |q.items|
    ensures Faded(q.items, |q.items| - |Trim(q, threshold).items|, threshold / low)
    decreases |q.items|
  {
    if q.total < threshold && |q.items| > 1 {
      var rest := Queue(q.items[1..], Product(q.items[1..]));
      TrimPops(q, threshold);
      TrimDropsFaded(rest, threshold, low);
      ProductRange(q.items[1..]);
      PopIsFaded(q.items[0].decay, Product(q.items[1..]), low, threshold);
      FadedStep(q.items, |rest.items| - |Trim(rest, threshold).items|, threshold / low);
    }
  }

  lemma PopIsFaded(decay: real, weight: real, low: real, threshold: real)
    requires 0.0 < low <= decay && weight > 0.0 && Times(decay, weight) < threshold
    ensures weight < threshold / low
  {
    assert threshold / low * low == threshold;
    assert low * weight <= decay * weight;
  }

  /** One more item takes every earlier one further down. */
  lemma FadedMore(history: seq<Item>, item: Item, n: nat, bound: real)
    requires Faded(history, n, bound) && Positive(history) && 0.0 < item.decay <= 1.0
    ensures Faded(history + [item], n, bound)
  {
    forall i | 0 <= i < n
      ensures Since(history + [item], i) < bound
    {
      SinceGrows(history, item, i);
      ProductRange(history[i + 1..]);
      MulRange(Since(history, i), item.decay);
    }
  }

  /** A small decay takes every earlier item below it at once. */
  lemma AllFaded(history: seq<Item>, item: Item, bound: real)
    requires Positive(history) && 0.0 < item.decay <= 1.0 && item.decay < bound
    ensures Faded(history + [item], |history|, bound)
  {
    forall i | 0 <= i < |history|
      ensures Since(history + [item], i) < bound
    {
      SinceGrows(history, item, i);
      ProductRange(history[i + 1..]);
      AtMostDecay(item.decay, Since(history, i));
    }
  }

  lemma AtMostDecay(d: real, w: real)
    requires 0.0 < d <= 1.0 && 0.0 < w <= 1.0
    ensures Times(d, w) <= d
  {
    MulRange(d, w);
  }

  /** The newest items, and the ones before that have faded. */
  ghost predicate Newest(items: seq<Item>, history: seq<Item>, bound: real) {
    |items| <= |history| && items == history[|history| - |items|..] && Faded(history, |history| - |items|, bound)
  }

  /** Items that fade from a suffix fade from the whole. */
  lemma FadedBehind(history: seq<Item>, a: nat, b: nat, bound: real)
    requires a <= |history| && Faded(history, a, bound) && Faded(history[a..], b, bound)
    ensures Faded(history, a + b, bound)
  {
    forall i | 0 <= i < a + b
      ensures Since(history, i) < bound
    {
      if i >= a {
        assert history[a..][i - a + 1..] == history[i + 1..];
        assert Since(history[a..], i - a) < bound;
      }
    }
  }

  lemma TrimKeepsNewest(q: Queue, threshold: real, low: real) returns (k: nat)
    requires Decays(q.items, low) && q.items != [] && q.total == Product(q.items)
    ensures k <= |q.items| && Trim(q, threshold).items == q.items[|q.items| - k..]
    ensures Faded(q.items, |q.items| - k, threshold / low)
  {
    TrimConsistent(q, threshold);
    TrimDropsFaded(q, threshold, low);
    k := |Trim(q, threshold).items|;
  }

  /** What a push drops has faded. */
  lemma PushDropsFaded(items: seq<Item>, item: Item, low: real) returns (k: nat)
    requires Decays(items, low) && low <= item.decay <= 1.0
    ensures k <= |items| + 1 && Push(items, item, ACCUMULATING).items == (items + [item])[|items| + 1 - k..]
    ensures Faded(items + [item], |items| + 1 - k, ACCUMULATING / low)
  {
    ProductPush(items, item);
    k := TrimKeepsNewest(Queue(items + [item], Times(item.decay, Product(items))), ACCUMULATING, low);
  }

  lemma PushedIsNewest(items: seq<Item>, history: seq<Item>, item: Item, low: real)
    requires Decays(history, low) && low <= item.decay <= 1.0 && Newest(items, history, ACCUMULATING / low)
    ensures Positive(items) && Newest(Push(items, item, ACCUMULATING).items, history + [item], ACCUMULATING / low)
  {
    var a, more := |history| - |items|, history + [item];
    FadedMore(history, item, a, ACCUMULATING / low);
    assert more[a..] == items + [item];
    var k := PushDropsFaded(items, item, low);
    FadedBehind(more, a, |items| + 1 - k, ACCUMULATING / low);
    SuffixInside(more, a, k);
  }

  lemma SuffixInside<T>(s: seq<T>, a: nat, k: nat)
    requires a <= |s| && k <= |s| - a
    ensures s[a..][|s| - a - k..] == s[|s| - k..]
  {
  }

  lemma OverLow(a: real, low: real)
    requires a > 0.0 && 0.0 < low <= 1.0
    ensures a / low >= a
  {
    assert a / low * low == a;
  }

  lemma ClearedIsNewest(history: seq<Item>, item: Item, low: real)
    requires Decays(history, low) && low <= item.decay <= 1.0 && item.decay < ACCUMULATING
    ensures Newest(Push([], item, ACCUMULATING).items, history + [item], ACCUMULATING / low)
  {
    var pushed := Push([], item, ACCUMULATING);
    assert [] + [item] == [item];
    assert pushed.items == [item];
    OverLow(ACCUMULATING, low);
    AllFaded(history, item, ACCUMULATING / low);
    assert (history + [item])[|history|..] == [item];
  }

  lemma AccumulatedSplits(history: seq<Item>, n: nat, f: nat)
    requires n <= |history|
    ensures Accumulated(history, f) == Sparse(history[n..], f) + Times(Product(history[n..]), Accumulated(history[..n], f))
  {
    assert history == history[..n] + history[n..];
    AccumulatedIsSparse(history, f);
    AccumulatedIsSparse(history[..n], f);
    SparseSplits(history[..n], history[n..], f);
  }

  lemma {:induction false} RunHoldsNewest(history: seq<Item>, low: real)
    requires Decays(history, low)
    ensures Newest(RunAccumulating(history).items, history, ACCUMULATING / low)
  {
    if history != [] {
      var init, last := history[..|history| - 1], history[|history| - 1];
      assert history == init + [last];
      RunHoldsNewest(init, low);
      AddIsPush(RunAccumulating(init), last);
      if last.decay < ACCUMULATING {
        ClearedIsNewest(init, last, low);
      } else {
        PushedIsNewest(RunAccumulating(init).items, init, last, low);
      }
    }
  }

  /**
   After any history of accumulating additions with decays in [low, 1] the queue holds all but the first n items; what it
   holds of a feature is its accumulated eligibility but for these, which all have decayed below 0.0001 / low.
   */
  lemma AccumulatingStandsForDense(history: seq<Item>, f: nat, low: real) returns (n: nat)
    requires Decays(history, low)
    ensures n <= |history| && RunAccumulating(history).items == history[n..] && Faded(history, n, ACCUMULATING / low)
    ensures Accumulated(history, f) ==
            Sparse(RunAccumulating(history).items, f) +
            Times(Product(RunAccumulating(history).items), Accumulated(history[..n], f))
  {
    RunHoldsNewest(history, low);
    n := |history| - |RunAccumulating(history).items|;
    AccumulatedSplits(history, n, f);
  }

  // ----- Readings -----

  /** The first n parameters of a projection, by weight. */
  function Reading(params: seq<real>, p: Features, n: nat): real
    requires n <= |p.indices| && AllLive(p, |params|) && IsShaped(p)
  {
    if n == 0 then 0.0
    else
      var param := params[p.indices[n - 1]];
      Reading(params, p, n - 1) + if p.weights == [] then param else Times(param, p.weights[n - 1])
  }

  /** All indices are parameters. */
  predicate AllLive(p: Features, size: nat) {
    forall i :: 0 <= i < |p.indices| ==> p.indices[i] < size
  }

  predicate NoRepeat(p: Features) {
    forall i, j :: 0 <= i < j < |p.indices| ==> p.indices[i] != p.indices[j]
  }

  /** Without repetition every index takes its own part of an update. */
  lemma {:induction false} OwnShare(p: Features, i: nat, n: nat)
    requires NoRepeat(p) && i < |p.indices| && n <= |p.indices|
    ensures Gain(p, p.indices[i], n) == if i < n then Share(p.weights, i) else 0.0
  {
    if n > 0 {
      OwnShare(p, i, n - 1);
    }
  }

  lemma PlusShare(delta: real, before: real, w: real, norm: real)
    requires norm > 0.0
    ensures Times(before + Times(delta, Quotient(w, norm)), w) == Times(before, w) + Times(delta, Quotient(Square(w), norm))
  {
    assert w / norm * w == w * w / norm;
  }

  lemma ReadingStep(before: seq<real>, after: seq<real>, p: Features, delta: real, i: nat)
    requires AllLive(p, |before|) && NoRepeat(p) && IsShaped(p) && i < |p.indices|
    requires Moved(before, after, p, |p.indices|, delta)
    ensures after[p.indices[i]] == before[p.indices[i]] + Times(delta, Share(p.weights, i))
  {
    OwnShare(p, i, |p.indices|);
  }

  lemma QuotientsAdd(a: real, b: real, n: real)
    requires n > 0.0
    ensures Quotient(a + b, n) == Quotient(a, n) + Quotient(b, n) && Quotient(0.0, n) == 0.0 && Quotient(n, n) == 1.0
  {
  }

  lemma {:induction false} WeightedReading(before: seq<real>, after: seq<real>, p: Features, delta: real, n: nat)
    requires AllLive(p, |before|) && NoRepeat(p) && IsShaped(p) && p.weights != [] && n <= |p.indices|
    requires Moved(before, after, p, |p.indices|, delta)
    ensures Reading(after, p, n) ==
            Reading(before, p, n) + Times(delta, Quotient(SumOfSquares(p.weights[..n]), Norm(p.weights)))
  {
    QuotientsAdd(0.0, 0.0, Norm(p.weights));
    if n == 0 {
      assert Times(delta, 0.0) == 0.0;
    } else {
      var w, norm := p.weights[n - 1], Norm(p.weights);
      WeightedReading(before, after, p, delta, n - 1);
      ReadingStep(before, after, p, delta, n - 1);
      assert p.weights[..n] == p.weights[..n - 1] + [w];
      SumsPush(p.weights[..n - 1], w, 0.0);
      AddsUp(Reading(before, p, n - 1), before[p.indices[n - 1]], delta, w, SumOfSquares(p.weights[..n - 1]), norm);
    }
  }

  lemma AddsUp(sum: real, param: real, delta: real, w: real, squares: real, norm: real)
    requires norm > 0.0
    ensures sum + Times(delta, Quotient(squares, norm)) + Times(param + Times(delta, Quotient(w, norm)), w) ==
            sum + Times(param, w) + Times(delta, Quotient(squares + Square(w), norm))
  {
    PlusShare(delta, param, w, norm);
    QuotientsAdd(squares, Square(w), norm);
    Distribute(delta, Quotient(squares, norm), Quotient(Square(w), norm));
  }

  lemma {:induction false} BooleanReading(before: seq<real>, after: seq<real>, p: Features, delta: real, n: nat)
    requires AllLive(p, |before|) && NoRepeat(p) && p.weights == [] && n <= |p.indices|
    requires Moved(before, after, p, |p.indices|, delta)
    ensures Reading(after, p, n) == Reading(before, p, n) + Times(delta, n as real)
  {
    if n > 0 {
      BooleanReading(before, after, p, delta, n - 1);
      ReadingStep(before, after, p, delta, n - 1);
      Distribute(delta, (n - 1) as real, 1.0);
    }
  }

  /** What is read for a projection: the mean of its parameters if boolean, else their weighted sum. */
  function MeanReading(params: seq<real>, p: Features): real
    requires p.indices != [] && AllLive(p, |params|) && IsShaped(p)
  {
    var sum := Reading(params, p, |p.indices|);
    if p.weights == [] then Quotient(sum, |p.indices| as real) else sum
  }

  function ParamsOf(params: seq<real>, p: Features): seq<real>
    requires AllLive(p, |params|)
  {
    seq(|p.indices|, i requires 0 <= i < |p.indices| => params[p.indices[i]])
  }

  function Products(x: seq<real>, y: seq<real>): seq<real>
    requires |x| == |y|
  {
    seq(|x|, i requires 0 <= i < |x| => Times(x[i], y[i]))
  }

  lemma {:induction false} ReadingIsSum(params: seq<real>, p: Features, n: nat, parts: seq<real>)
    requires n <= |p.indices| == |parts| && AllLive(p, |params|) && IsShaped(p)
    requires parts == if p.weights == [] then ParamsOf(params, p) else Products(ParamsOf(params, p), p.weights)
    ensures Reading(params, p, n) == Sum(parts[..n])
  {
    if n > 0 {
      ReadingIsSum(params, p, n - 1, parts);
      assert parts[..n] == parts[..n - 1] + [parts[n - 1]];
      SumsPush(parts[..n - 1], parts[n - 1], 0.0);
    }
  }

  lemma ReadsMeanOrProduct(params: seq<real>, p: Features)
    requires p.indices != [] && AllLive(p, |params|) && IsShaped(p)
    ensures MeanReading(params, p) == if p.weights == [] then Mean(ParamsOf(params, p))
                                      else Sum(Products(ParamsOf(params, p), p.weights))
  {
    var parts := if p.weights == [] then ParamsOf(params, p) else Products(ParamsOf(params, p), p.weights);
    ReadingIsSum(params, p, |p.indices|, parts);
    assert parts[..|p.indices|] == parts;
  }

  lemma MeanMoves(sum: real, delta: real, n: real)
    requires n > 0.0
    ensures Quotient(sum + Times(delta, n), n) == Quotient(sum, n) + delta
  {
    QuotientsAdd(sum, Times(delta, n), n);
    assert Times(delta, n) / n == delta;
  }

  /**
   One-step learning: an update moves what is read for the same projection by just delta, unless it has weights and these
   are too small.
   */
  lemma UpdateMovesReading(before: seq<real>, after: seq<real>, p: Features, delta: real)
    requires p.indices != [] && AllLive(p, |before|) && NoRepeat(p) && IsShaped(p)
    requires Moved(before, after, p, |p.indices|, delta)
    requires p.weights == [] || SumOfSquares(p.weights) >= LEAST_NORM
    ensures MeanReading(after, p) == MeanReading(before, p) + delta
  {
    var n := |p.indices|;
    if p.weights == [] {
      BooleanReading(before, after, p, delta, n);
      MeanMoves(Reading(before, p, n), delta, n as real);
    } else {
      WeightedReading(before, after, p, delta, n);
      assert p.weights[..n] == p.weights;
      QuotientsAdd(0.0, 0.0, Norm(p.weights));
    }
  }
}
