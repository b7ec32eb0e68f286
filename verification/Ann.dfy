/**
 Nearest-neighbour projection (addons/llr/src/ann.cpp): the samples a kd-tree has indexed are searched with the tree,
 the samples pushed since then linearly, and the two results are merged.
 */
module Ann {
  import opened Options
  import opened Sequences
  import Reals

  type Point = seq<real>

  /** A sample, by its place in the store, and its distance from the query. */
  datatype SampleRef = SampleRef(sample: nat, dist: real)

  function Difference(a: real, b: real): real {
    Reals.Square(a - b)
  }

  /** Squared distance over the first dims coordinates. */
  function Distance(a: Point, b: Point, dims: nat): real
    requires dims <= |a| && dims <= |b|
  {
    if dims == 0 then 0.0 else Distance(a, b, dims - 1) + Difference(a[dims - 1], b[dims - 1])
  }

  /** The first dims coordinates, relative to the other point. */
  function Offset(a: Point, b: Point, dims: nat): seq<real>
    requires dims <= |a| && dims <= |b|
  {
    seq(dims, i requires 0 <= i < dims => a[i] - b[i])
  }

  /** The distance is the squared length of the offset. */
  lemma {:induction false} DistanceIsLength(a: Point, b: Point, dims: nat)
    requires dims <= |a| && dims <= |b|
    ensures Distance(a, b, dims) == Reals.SumOfSquares(Offset(a, b, dims))
  {
    if dims > 0 {
      DistanceIsLength(a, b, dims - 1);
      assert Offset(a, b, dims) == Offset(a, b, dims - 1) + [a[dims - 1] - b[dims - 1]];
      Reals.SumsPush(Offset(a, b, dims - 1), a[dims - 1] - b[dims - 1], 0.0);
    }
  }

  /** It is not negative, zero exactly between points with the same coordinates, and the same in both directions. */
  lemma {:induction false} DistanceMeasures(a: Point, b: Point, dims: nat)
    requires dims <= |a| && dims <= |b|
    ensures Distance(a, b, dims) >= 0.0 && Distance(a, b, dims) == Distance(b, a, dims)
    ensures Distance(a, b, dims) == 0.0 <==> a[..dims] == b[..dims]
  {
    if dims > 0 {
      DistanceMeasures(a, b, dims - 1);
      DifferenceMeasures(a[dims - 1], b[dims - 1]);
      assert a[..dims] == a[..dims - 1] + [a[dims - 1]] && b[..dims] == b[..dims - 1] + [b[dims - 1]];
    }
  }

  lemma DifferenceMeasures(a: real, b: real)
    ensures Difference(a, b) >= 0.0 && Difference(a, b) == Difference(b, a)
    ensures Difference(a, b) == 0.0 <==> a == b
  {
    Reals.SquareIsPositive(a - b);
    Reals.NegativeSquare(a - b);
    assert b - a == -(a - b);
  }

  predicate Stored(store: seq<Point>, query: Point) {
    forall i :: 0 <= i < |store| ==> |store[i]| >= |query|
  }

  function RefOf(store: seq<Point>, query: Point, i: nat): SampleRef
    requires Stored(store, query) && i < |store|
  {
    SampleRef(i, Distance(store[i], query, |query|))
  }

  // ----- Sorted lists of references -----

  predicate Ordered(refs: seq<SampleRef>) {
    forall i, j :: 0 <= i < j < |refs| ==> refs[i].dist <= refs[j].dist
  }

  function Insert(x: SampleRef, s: seq<SampleRef>): seq<SampleRef> {
    if s == [] || x.dist <= s[0].dist then [x] + s else [s[0]] + Insert(x, s[1..])
  }

  lemma {:induction false} InsertAdds(x: SampleRef, s: seq<SampleRef>)
    ensures multiset(Insert(x, s)) == multiset(s) + multiset{x}
  {
    if s != [] && x.dist > s[0].dist {
      InsertAdds(x, s[1..]);
      assert s == [s[0]] + s[1..];
    }
  }

  lemma {:induction false} InsertIsOrdered(x: SampleRef, s: seq<SampleRef>)
    requires Ordered(s)
    ensures Ordered(Insert(x, s))
  {
    if s != [] && x.dist > s[0].dist {
      InsertIsOrdered(x, s[1..]);
      InsertAdds(x, s[1..]);
      var rest := Insert(x, s[1..]);
      forall i | 0 <= i < |rest|
        ensures s[0].dist <= rest[i].dist
      {
        assert rest[i] in multiset(s[1..]) + multiset{x};
      }
    }
  }

  /** std::sort: some ordered permutation. */
  method Sort(refs: array<SampleRef>)
    modifies refs
    ensures Ordered(refs[..]) && multiset(refs[..]) == multiset(old(refs[..]))
  {
    var sorted: seq<SampleRef> := [];
    var i := 0;
    while i < refs.Length
      invariant 0 <= i <= refs.Length
      invariant Ordered(sorted) && multiset(sorted) == multiset(refs[..i])
      invariant refs[..] == old(refs[..])
    {
      InsertIsOrdered(refs[i], sorted);
      InsertAdds(refs[i], sorted);
      assert refs[..i + 1] == refs[..i] + [refs[i]];
      sorted := Insert(refs[i], sorted);
      i := i + 1;
    }
    assert refs[..i] == refs[..];
    assert |sorted| == |multiset(sorted)| == |multiset(refs[..])| == refs.Length;
    forall k | 0 <= k < refs.Length {
      refs[k] := sorted[k];
    }
    assert refs[..] == sorted;
  }

  // ----- What a search finds -----

  /** These are k nearest samples among the first n, in the order of their distance. */
  ghost predicate Nearest(refs: seq<SampleRef>, store: seq<Point>, query: Point, n: nat, k: nat)
    requires Stored(store, query) && n <= |store|
  {
    && |refs| == k && Ordered(refs) && Distinct(refs)
    && (forall i :: 0 <= i < k ==> refs[i].sample < n && refs[i] == RefOf(store, query, refs[i].sample))
    && (forall j, r :: 0 <= j < n && RefOf(store, query, j) !in refs && r in refs ==>
          r.dist <= RefOf(store, query, j).dist)
  }

  function Min(a: nat, b: nat): nat {
    if a <= b then a else b
  }

  /** The samples from `from` on, in the order of the store. */
  predicate IsTail(refs: seq<SampleRef>, store: seq<Point>, query: Point, from: nat)
    requires Stored(store, query) && from <= |store|
  {
    |refs| == |store| - from && forall i :: 0 <= i < |refs| ==> refs[i] == RefOf(store, query, from + i)
  }

  // ----- Merging -----

  /** A search that returns as many references as there are samples has found them all. */
  lemma FullSearchFindsAll(refs: seq<SampleRef>, store: seq<Point>, query: Point, n: nat, j: nat)
    requires Stored(store, query) && n <= |store| && Nearest(refs, store, query, n, n) && j < n
    ensures RefOf(store, query, j) in refs
  {
    ElementsCount(refs);
    BelowCount(n);
    if RefOf(store, query, j) !in refs {
      var samples := set r | r in refs :: r.sample;
      SampleCount(Elements(refs), store, query);
      assert samples == set r | r in Elements(refs) :: r.sample;
      assert samples <= Below(n) - {j};
      SubsetCount(samples, Below(n) - {j});
    }
  }

  /** As many references as samples they name. */
  lemma {:induction false} SampleCount(refs: set<SampleRef>, store: seq<Point>, query: Point)
    requires Stored(store, query)
    requires forall r :: r in refs ==> r.sample < |store| && r == RefOf(store, query, r.sample)
    ensures |set r | r in refs :: r.sample| == |refs|
  {
    var samples := set r | r in refs :: r.sample;
    if refs != {} {
      var x :| x in refs;
      SampleCount(refs - {x}, store, query);
      assert samples == (set r | r in refs - {x} :: r.sample) + {x.sample};
    }
  }

  lemma PositionsBefore(found: seq<SampleRef>, merged: seq<SampleRef>, p: nat)
    requires Distinct(found) && Ordered(merged) && Elements(found) <= Elements(merged) && p < |merged|
    requires forall t :: t in found ==> t.dist < merged[p].dist
    ensures |found| <= p
  {
    forall t | t in Elements(found)
      ensures t in Elements(merged[..p])
    {
      var q :| 0 <= q < |merged| && merged[q] == t;
      assert q < p;
      assert merged[..p][q] == t;
    }
    ElementsCount(found);
    ElementsCount(merged[..p]);
    SubsetCount(Elements(found), Elements(merged[..p]));
  }

  lemma UnionIsDistinct(found: seq<SampleRef>, tail: seq<SampleRef>, from: nat)
    requires Distinct(found) && Distinct(tail)
    requires forall i :: 0 <= i < |found| ==> found[i].sample < from
    requires forall i :: 0 <= i < |tail| ==> tail[i].sample >= from
    ensures Distinct(found + tail)
  {
  }

  /** Nothing outside the merged list is nearer than its first k references. */
  lemma OutsideIsFarther(found: seq<SampleRef>, merged: seq<SampleRef>, store: seq<Point>, query: Point,
                         indexed: nat, k: nat, j: nat, p: nat)
    requires Stored(store, query) && j < indexed <= |store|
    requires Nearest(found, store, query, indexed, Min(k, indexed))
    requires Ordered(merged) && Elements(found) <= Elements(merged) && p < |merged| && p < k
    requires RefOf(store, query, j) !in merged
    ensures merged[p].dist <= RefOf(store, query, j).dist
  {
    var far := RefOf(store, query, j);
    assert far in found ==> far in Elements(found);
    if |found| == indexed {
      FullSearchFindsAll(found, store, query, indexed, j);
    }
    if merged[p].dist > far.dist {
      PositionsBefore(found, merged, p);
    }
  }

  /** A reference that is not among the first k is no nearer than any of them. */
  lemma LeftOutIsFarther(found: seq<SampleRef>, merged: seq<SampleRef>, store: seq<Point>, query: Point,
                         indexed: nat, k: nat, j: nat, r: SampleRef)
    requires Stored(store, query) && indexed <= |store| && j < |store|
    requires Nearest(found, store, query, indexed, Min(k, indexed))
    requires Ordered(merged) && Elements(found) <= Elements(merged)
    requires j >= indexed ==> RefOf(store, query, j) in merged
    requires r in merged[..Min(k, |merged|)] && RefOf(store, query, j) !in merged[..Min(k, |merged|)]
    ensures r.dist <= RefOf(store, query, j).dist
  {
    var available, far := Min(k, |merged|), RefOf(store, query, j);
    var p :| 0 <= p < available && merged[..available][p] == r;
    assert forall q :: 0 <= q < available ==> merged[q] in merged[..available];
    if far in merged {
      var q :| 0 <= q < |merged| && merged[q] == far;
    } else {
      OutsideIsFarther(found, merged, store, query, indexed, k, j, p);
    }
  }

  lemma TailIsMerged(found: seq<SampleRef>, tail: seq<SampleRef>, merged: seq<SampleRef>, store: seq<Point>,
                     query: Point, indexed: nat, j: nat)
    requires Stored(store, query) && indexed <= j < |store| && IsTail(tail, store, query, indexed)
    requires multiset(merged) == multiset(found + tail)
    ensures RefOf(store, query, j) in merged
  {
    assert (found + tail)[|found| + j - indexed] == RefOf(store, query, j);
    assert RefOf(store, query, j) in multiset(found + tail);
  }

  /** Merging the nearest indexed samples with all later ones gives the nearest samples of the whole store. */
  lemma MergeIsNearest(found: seq<SampleRef>, tail: seq<SampleRef>, merged: seq<SampleRef>, store: seq<Point>,
                       query: Point, indexed: nat, k: nat)
    requires Stored(store, query) && indexed <= |store|
    requires Nearest(found, store, query, indexed, Min(k, indexed)) && IsTail(tail, store, query, indexed)
    requires Ordered(merged) && multiset(merged) == multiset(found + tail)
    ensures var available := Min(k, |merged|);
            available == Min(k, |store|) && Nearest(merged[..available], store, query, |store|, available)
  {
    var available := Min(k, |merged|);
    UnionIsDistinct(found, tail, indexed);
    PermutationKeeps(merged, found + tail);
    assert Elements(found) <= Elements(merged) by {
      assert forall r :: r in found ==> r in found + tail;
    }
    var nearest := merged[..available];
    forall i | 0 <= i < available
      ensures nearest[i].sample < |store| && nearest[i] == RefOf(store, query, nearest[i].sample)
    {
      assert nearest[i] in Elements(merged);
    }
    forall j | indexed <= j < |store|
      ensures RefOf(store, query, j) in merged
    {
      TailIsMerged(found, tail, merged, store, query, indexed, j);
    }
    forall j, r | 0 <= j < |store| && RefOf(store, query, j) !in nearest && r in nearest
      ensures r.dist <= RefOf(store, query, j).dist
    {
      LeftOutIsFarther(found, merged, store, query, indexed, k, j, r);
    }
  }

  /** Which distances a nearest-neighbour search finds is determined, whatever it does about ties. */
  lemma DistancesAreDetermined(a: seq<SampleRef>, b: seq<SampleRef>, store: seq<Point>, query: Point, n: nat, k: nat, i: nat)
    requires Stored(store, query) && n <= |store| && i < k
    requires Nearest(a, store, query, n, k) && Nearest(b, store, query, n, k)
    ensures a[i].dist == b[i].dist
  {
    NotNearer(a, b, store, query, n, k, i);
    NotNearer(b, a, store, query, n, k, i);
  }

  lemma NotNearer(a: seq<SampleRef>, b: seq<SampleRef>, store: seq<Point>, query: Point, n: nat, k: nat, i: nat)
    requires Stored(store, query) && n <= |store| && i < k
    requires Nearest(a, store, query, n, k) && Nearest(b, store, query, n, k)
    ensures a[i].dist >= b[i].dist
  {
    if a[i].dist < b[i].dist {
      var front := a[..i + 1];
      forall x | x in Elements(front)
        ensures x in Elements(b)
      {
        assert x == RefOf(store, query, x.sample) && x.dist <= a[i].dist;
        assert b[i] in b;
      }
      PositionsBefore(front, b, i);
    }
  }

  // ----- The projector -----

  /** Places of the neighbours in the store and their weights. */
  datatype Projected = BadParam | Neighbors(samples: seq<nat>, weights: seq<real>)

  function Samples(refs: seq<SampleRef>): seq<nat> {
    seq(|refs|, i requires 0 <= i < |refs| => refs[i].sample)
  }

  /** The kernel is applied to the distance relative to that of the farthest neighbour. */
  function Weight(kernel: real -> real, dist: real, hSqr: real): real {
    if hSqr != 0.0 then kernel(dist / hSqr) else 1.0
  }

  function Weights(kernel: real -> real, refs: seq<SampleRef>): seq<real> {
    seq(|refs|, i requires 0 <= i < |refs| => Weight(kernel, refs[i].dist, refs[|refs| - 1].dist))
  }

  /** Every weight is that of the share its distance has in the farthest one; if all are at the query, all weights are one. */
  lemma WeightsAreRelative(kernel: real -> real, refs: seq<SampleRef>, i: nat)
    requires i < |refs| && Ordered(refs) && forall k :: 0 <= k < |refs| ==> refs[k].dist >= 0.0
    ensures var far, weights := refs[|refs| - 1].dist, Weights(kernel, refs);
            |weights| == |refs| &&
            if far == 0.0 then weights[i] == 1.0
            else exists share :: 0.0 <= share <= 1.0 && Reals.Times(share, far) == refs[i].dist && weights[i] == kernel(share)
  {
    var far := refs[|refs| - 1].dist;
    if far != 0.0 {
      ShareOf(refs[i].dist, far);
    }
  }

  lemma ShareOf(dist: real, far: real)
    requires 0.0 <= dist <= far && far > 0.0
    ensures 0.0 <= dist / far <= 1.0 && Reals.Times(dist / far, far) == dist
  {
  }

  class ANNProjector {
    var store: seq<Point>
    var indexedSamples: nat
    const dims: nat
    const neighbors: nat
    const interval: nat
    const incremental: bool
    const kernel: real -> real

    ghost predicate Valid()
      reads this
    {
      indexedSamples <= |store| && forall i :: 0 <= i < |store| ==> |store[i]| >= dims
    }

    constructor (dims: nat, neighbors: nat, interval: nat, incremental: bool, kernel: real -> real)
      ensures Valid() && store == [] && indexedSamples == 0
      ensures this.dims == dims && this.neighbors == neighbors && this.interval == interval
      ensures this.incremental == incremental && this.kernel == kernel
    {
      store, indexedSamples := [], 0;
      this.dims, this.neighbors, this.interval := dims, neighbors, interval;
      this.incremental, this.kernel := incremental, kernel;
    }

    method Push(sample: Point)
      requires Valid() && |sample| >= dims
      modifies this
      ensures Valid() && store == old(store) + [sample] && indexedSamples == old(indexedSamples)
    {
      store := store + [sample];
    }

    /** Indexes the whole store, after it is pruned to the samples that are kept. */
    method Reindex(kept: seq<Point>)
      requires Valid() && forall i :: 0 <= i < |kept| ==> kept[i] in store
      modifies this
      ensures Valid() && store == kept && indexedSamples == |store|
    {
      store := kept;
      indexedSamples := |store|;
    }

    /** Ends an episode; afterwards the linear part is shorter than the interval and than the index. */
    method Finalize(kept: seq<Point>)
      requires Valid() && forall i :: 0 <= i < |kept| ==> kept[i] in store
      modifies this
      ensures Valid()
      ensures if old(|store| < indexedSamples + interval && |store| < 2 * indexedSamples)
              then store == old(store) && indexedSamples == old(indexedSamples)
              else store == kept && indexedSamples == |kept|
      ensures |store| - indexedSamples == 0 || |store| - indexedSamples < Min(interval, indexedSamples)
    {
      if |store| >= indexedSamples + interval || |store| >= 2 * indexedSamples {
        Reindex(kept);
      }
    }

    method LinearSearch(refs: array<SampleRef>, start: nat, query: Point)
      requires Valid() && |query| == dims && refs.Length == start + (|store| - indexedSamples)
      modifies refs
      ensures refs[..start] == old(refs[..start])
      ensures IsTail(refs[start..], store, query, indexedSamples)
    {
      var linearSamples := |store| - indexedSamples;
      for i := 0 to linearSamples
        invariant forall k :: 0 <= k < start ==> refs[k] == old(refs[k])
        invariant forall k :: start <= k < start + i ==> refs[k] == RefOf(store, query, indexedSamples + (k - start))
      {
        var dist := 0.0;
        for d := 0 to dims
          invariant dist == Distance(store[indexedSamples + i], query, d)
        {
          dist := dist + Difference(store[indexedSamples + i][d], query[d]);
        }
        refs[start + i] := SampleRef(indexedSamples + i, dist);
      }
    }

    /**
     The tree's answer `search` lists the nearest indexed samples, or is None if the search failed. With incremental
     search the result is the list of the nearest samples of the whole store, otherwise of the indexed ones.
     */
    method Project(query: Point, search: Option<seq<SampleRef>>) returns (p: Projected)
      requires Valid()
      requires |query| == dims && search.Some? ==>
                 Nearest(search.value, store, query, indexedSamples, Min(neighbors, indexedSamples))
      ensures p.BadParam? <==> |query| != dims
      ensures p.Neighbors? && (Min(neighbors, indexedSamples) == 0 || search.None?) ==> p == Neighbors([], [])
      ensures p.Neighbors? && Min(neighbors, indexedSamples) > 0 && search.Some? ==>
                var n := if incremental then |store| else indexedSamples;
                exists refs :: Nearest(refs, store, query, n, Min(neighbors, n)) &&
                               p == Neighbors(Samples(refs), Weights(kernel, refs))
    {
      if |query| != dims {
        return BadParam;
      }
      var indexSamples := Min(neighbors, indexedSamples);
      var linearSamples := if incremental then |store| - indexedSamples else 0;
      var availableSamples := Min(neighbors, indexSamples + linearSamples);
      if availableSamples == 0 || indexSamples == 0 || search.None? {
        return Neighbors([], []);
      }
      var refs := new SampleRef[indexSamples + linearSamples](_ => SampleRef(0, 0.0));
      Collect(refs, query, search.value);
      ghost var nearest := refs[..availableSamples];
      var samples, weights := Weigh(refs, availableSamples);
      return Neighbors(samples, weights);
    }

    /** Fills the references from both searches and sorts them. */
    method Collect(refs: array<SampleRef>, query: Point, found: seq<SampleRef>)
      requires Valid() && |query| == dims
      requires Nearest(found, store, query, indexedSamples, Min(neighbors, indexedSamples))
      requires refs.Length == |found| + if incremental then |store| - indexedSamples else 0
      modifies refs
      ensures var n := if incremental then |store| else indexedSamples;
              Min(neighbors, n) == Min(neighbors, refs.Length) &&
              Nearest(refs[..Min(neighbors, refs.Length)], store, query, n, Min(neighbors, n))
    {
      for i := 0 to |found|
        invariant forall k :: 0 <= k < i ==> refs[k] == found[k]
      {
        refs[i] := found[i];
      }
      assert refs[..|found|] == found;
      if incremental {
        LinearSearch(refs, |found|, query);
        ghost var tail := refs[|found|..];
        assert refs[..] == found + tail;
        Sort(refs);
        MergeIsNearest(found, tail, refs[..], store, query, indexedSamples, neighbors);
        assert refs[..][..Min(neighbors, refs.Length)] == refs[..Min(neighbors, refs.Length)];
      }
    }

    method Weigh(refs: array<SampleRef>, availableSamples: nat) returns (samples: seq<nat>, weights: seq<real>)
      requires 0 < availableSamples <= refs.Length
      ensures samples == Samples(refs[..availableSamples]) && weights == Weights(kernel, refs[..availableSamples])
    {
      ghost var nearest := refs[..availableSamples];
      var hSqr := refs[availableSamples - 1].dist;
      samples, weights := [], [];
      for i := 0 to availableSamples
        invariant samples == Samples(nearest[..i])
        invariant |weights| == i && forall k :: 0 <= k < i ==> weights[k] == Weight(kernel, nearest[k].dist, hSqr)
      {
        samples := samples + [refs[i].sample];
        weights := weights + [Weight(kernel, refs[i].dist, hSqr)];
      }
      assert nearest[..availableSamples] == nearest;
    }
  }
}
