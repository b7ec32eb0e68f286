/**
 Eligibility traces over mutable projections (base/include/grl/trace.h,
 base/include/grl/projection.h) and their use by a linear representation
 (base/include/grl/representation.h, base/src/representations/linear.cpp).
 */
module Trace {
  import opened Reals
  import opened TraceSpec
  import opened TraceMeaning

  /** Sparse projection. Boolean when `weights` is empty. */
  class IndexProjection {
    var indices: seq<nat>
    var weights: seq<real>

    constructor (indices: seq<nat>, weights: seq<real>)
      ensures this.indices == indices && this.weights == weights
    {
      this.indices, this.weights := indices, weights;
    }

    function Value(): Features
      reads this
    {
      Features(indices, weights)
    }

    predicate Shaped()
      reads this
    {
      IsShaped(Value())
    }

    /**
     Saturated subtraction. A boolean projection subtracted from itself loses all its indices, and one with weights
     keeps its indices and loses all its weight.
     */
    method Ssub(rhs: IndexProjection)
      requires Shaped() && rhs.Shaped()
      modifies this
      ensures Shaped() && |indices| == |old(indices)| && |weights| == |old(weights)|
      ensures rhs != this ==> Value() == Less(old(Value()), rhs.Value())
      ensures rhs == this ==> indices == if weights == [] then TraceSpec.Ssub(old(indices), old(indices)) else old(indices)
      ensures rhs == this && NotNegative(old(weights)) ==> NoWeight(weights)
    {
      if weights == [] || rhs.weights == [] {
        SubtractIndices(rhs);
      } else {
        SubtractWeights(rhs);
      }
    }

    method SubtractIndices(rhs: IndexProjection)
      modifies this`indices
      ensures indices == TraceSpec.Ssub(old(indices), old(rhs.indices))
    {
      ghost var before, other := indices, rhs.indices;
      for ii := 0 to |indices|
        invariant |indices| == |before|
        invariant rhs != this ==> rhs.indices == other
        invariant forall i :: 0 <= i < ii ==> indices[i] == TraceSpec.Ssub(before, other)[i]
        invariant forall i :: ii <= i < |before| ==> indices[i] == before[i]
      {
        SubtractIndex(rhs, ii, before);
      }
    }

    method SubtractWeights(rhs: IndexProjection)
      requires Shaped() && rhs.Shaped() && weights != [] && rhs.weights != []
      modifies this`weights
      ensures |weights| == |indices|
      ensures rhs != this ==> weights == SsubWeights(old(Value()), rhs.Value())
      ensures rhs == this && NotNegative(old(weights)) ==> NoWeight(weights)
    {
      for ii := 0 to |indices|
        invariant |weights| == |indices| && |rhs.weights| == |rhs.indices|
        invariant rhs != this ==> rhs.Value() == old(rhs.Value())
        invariant rhs != this ==>
                    forall i :: 0 <= i < ii ==>
                      weights[i] == Saturated(old(weights[i]), indices[i], rhs.Value(), |rhs.indices|)
        invariant rhs == this && NotNegative(old(weights)) ==> NoWeight(weights[..ii])
        invariant forall i :: ii <= i < |weights| ==> weights[i] == old(weights[i])
      {
        SubtractWeight(rhs, ii);
      }
      assert weights[..|indices|] == weights;
    }

    /** The inner loop for one weight. */
    method SubtractWeight(rhs: IndexProjection, ii: nat)
      requires ii < |weights| == |indices| && |rhs.weights| == |rhs.indices| && rhs.weights != []
      modifies this`weights
      ensures |weights| == |indices| && forall i :: 0 <= i < |weights| && i != ii ==> weights[i] == old(weights[i])
      ensures rhs != this ==> weights[ii] == Saturated(old(weights[ii]), indices[ii], rhs.Value(), |rhs.indices|)
      ensures rhs == this && NotNegative(old(weights)[ii..]) && NoWeight(old(weights)[..ii]) ==> weights[ii] == 0.0
    {
      for jj := 0 to |rhs.indices|
        invariant |weights| == |indices| && |rhs.weights| == |rhs.indices| && rhs.weights != []
        invariant rhs != this ==> rhs.Value() == old(rhs.Value())
        invariant forall i :: 0 <= i < |weights| && i != ii ==> weights[i] == old(weights[i])
        invariant rhs != this ==> weights[ii] == Saturated(old(weights[ii]), indices[ii], rhs.Value(), jj)
        invariant rhs == this && jj > ii && NotNegative(old(weights)[ii..]) ==> weights[ii] == 0.0
      {
        assert rhs == this && ii < jj ==> old(weights)[jj] == old(weights)[ii..][jj - ii];
        if indices[ii] == rhs.indices[jj] {
          weights := weights[ii := Max0(weights[ii] - rhs.weights[jj])];
        }
      }
    }

    /** The inner loop for one index. */
    method SubtractIndex(rhs: IndexProjection, ii: nat, ghost before: seq<nat>)
      requires ii < |indices| == |before|
      requires rhs != this || forall i :: 0 <= i < ii ==> indices[i] == INVALID
      requires forall i :: ii <= i < |before| ==> indices[i] == before[i]
      modifies this`indices
      ensures |indices| == |before| && forall i :: 0 <= i < |before| && i != ii ==> indices[i] == old(indices[i])
      ensures rhs != this ==> indices[ii] == if before[ii] in rhs.indices then INVALID else before[ii]
      ensures rhs == this ==> indices[ii] == INVALID
    {
      ghost var start := rhs.indices;
      for jj := 0 to |rhs.indices|
        invariant |indices| == |before| && |rhs.indices| == |start|
        invariant rhs != this ==> rhs.indices == start
        invariant forall i :: 0 <= i < |before| && i != ii ==> indices[i] == old(indices[i])
        invariant rhs != this ==> indices[ii] == if before[ii] in start[..jj] then INVALID else before[ii]
        invariant rhs == this ==> indices[ii] == INVALID || indices[ii] == before[ii]
        invariant rhs == this && jj > ii ==> indices[ii] == INVALID
      {
        if indices[ii] == rhs.indices[jj] {
          indices := indices[ii := INVALID];
        }
      }
    }
  }

  predicate NoWeight(weights: seq<real>) {
    forall i :: 0 <= i < |weights| ==> weights[i] == 0.0
  }

  // ----- Traces -----

  datatype Entry = Entry(projection: IndexProjection, decay: real)

  function Projections(entries: seq<Entry>): set<IndexProjection> {
    set i | 0 <= i < |entries| :: entries[i].projection
  }

  ghost predicate EachShaped(projections: set<IndexProjection>)
    reads projections
  {
    forall p :: p in projections ==> p.Shaped()
  }

  /** No projection is in the queue twice. */
  ghost predicate NoneTwice(entries: seq<Entry>) {
    forall i, j :: 0 <= i < j < |entries| ==> entries[i].projection != entries[j].projection
  }

  /** The queue that the entries hold at the moment. */
  ghost function Items(entries: seq<Entry>): (r: seq<Item>)
    reads Projections(entries)
    ensures |r| == |entries|
    ensures forall i :: 0 <= i < |r| ==> r[i] == Item(entries[i].projection.Value(), entries[i].decay)
  {
    seq(|entries|, i requires 0 <= i < |entries| reads Projections(entries) =>
      Item(entries[i].projection.Value(), entries[i].decay))
  }

  lemma ItemsShaped(entries: seq<Entry>)
    ensures AllShaped(Items(entries)) <==> EachShaped(Projections(entries))
  {
    if AllShaped(Items(entries)) {
      forall p | p in Projections(entries)
        ensures p.Shaped()
      {
        var i :| 0 <= i < |entries| && entries[i].projection == p;
        assert Items(entries)[i] == Item(p.Value(), entries[i].decay);
      }
    }
    forall i | 0 <= i < |entries|
      ensures entries[i].projection in Projections(entries)
    {
    }
  }

  predicate IsSuffix<T(==)>(s: seq<T>, t: seq<T>) {
    |s| <= |t| && s == t[|t| - |s|..]
  }

  lemma SuffixOfSuffix<T>(s: seq<T>, t: seq<T>)
    requires s != [] && IsSuffix(s, t)
    ensures IsSuffix(s[1..], t)
  {
  }

  /** The newest entries stay, and so does what holds of all entries. */
  lemma SuffixKeeps(entries: seq<Entry>, whole: seq<Entry>)
    requires entries != [] && IsSuffix(entries, whole)
    ensures entries[|entries| - 1] == whole[|whole| - 1] && Projections(entries) <= Projections(whole)
  {
    var n := |whole| - |entries|;
    forall i | 0 <= i < |entries|
      ensures entries[i] == whole[n + i]
    {
    }
  }

  lemma PushedProjections(entries: seq<Entry>, entry: Entry)
    ensures Projections(entries + [entry]) == Projections(entries) + {entry.projection}
  {
    var more := entries + [entry];
    forall p | p in Projections(entries) + {entry.projection}
      ensures p in Projections(more)
    {
      if p in Projections(entries) {
        var i :| 0 <= i < |entries| && entries[i].projection == p;
        assert more[i].projection == p;
      } else {
        assert more[|entries|].projection == p;
      }
    }
  }

  /**
   The projections that the subtraction of `projection` changes: all of them, but when it is itself in the queue
   only those up to its oldest entry, because there it loses its own indices and takes nothing away from then on.
   */
  function Reached(entries: seq<Entry>, projection: IndexProjection): set<IndexProjection> {
    if entries == [] then {}
    else if entries[0].projection == projection then {projection}
    else {entries[0].projection} + Reached(entries[1..], projection)
  }

  lemma {:induction false} AllAreReached(entries: seq<Entry>, projection: IndexProjection)
    requires projection !in Projections(entries)
    ensures Reached(entries, projection) == Projections(entries)
  {
    if entries != [] {
      FirstAndRest(entries);
      AllAreReached(entries[1..], projection);
    }
  }

  lemma FirstAndRest(entries: seq<Entry>)
    requires entries != []
    ensures Projections(entries) == {entries[0].projection} + Projections(entries[1..])
  {
    assert entries == [entries[0]] + entries[1..];
    forall p | p in Projections(entries)
      ensures p in {entries[0].projection} + Projections(entries[1..])
    {
      var i :| 0 <= i < |entries| && entries[i].projection == p;
      assert i > 0 ==> entries[1..][i - 1].projection == p;
    }
    forall p | p in Projections(entries[1..])
      ensures p in Projections(entries)
    {
      var i :| 0 <= i < |entries[1..]| && entries[1..][i].projection == p;
      assert entries[i + 1].projection == p;
    }
  }

  /** A projection in the queue is reached itself. */
  lemma {:induction false} HeldIsReached(entries: seq<Entry>, projection: IndexProjection)
    requires projection in Projections(entries)
    ensures projection in Reached(entries, projection)
  {
    FirstAndRest(entries);
    if entries[0].projection != projection {
      HeldIsReached(entries[1..], projection);
    }
  }

  /** One more entry is reached unless the projection was met before it. */
  lemma {:induction false} ReachedStep(entries: seq<Entry>, projection: IndexProjection, entry: Entry)
    ensures Reached(entries + [entry], projection) ==
            Reached(entries, projection) + if projection in Projections(entries) then {} else {entry.projection}
  {
    if entries == [] {
      assert Reached([entry], projection) == {entry.projection};
    } else {
      FirstAndRest(entries);
      assert (entries + [entry])[1..] == entries[1..] + [entry];
      if entries[0].projection != projection {
        ReachedStep(entries[1..], projection, entry);
      }
    }
  }

  /** The queue after the subtraction of a boolean projection. */
  ghost function Subtracted(items: seq<Item>, entries: seq<Entry>, projection: IndexProjection, rhs: seq<nat>): (r: seq<Item>)
    requires |items| == |entries|
    ensures |r| == |items|
  {
    seq(|items|, i requires 0 <= i < |items| =>
      Item(Features(if entries[i].projection in Reached(entries, projection)
                    then TraceSpec.Ssub(items[i].features.indices, rhs) else items[i].features.indices,
                    items[i].features.weights),
           items[i].decay))
  }

  /** A projection that the queue does not hold is subtracted from everything. */
  lemma SubtractedFromAll(items: seq<Item>, entries: seq<Entry>, projection: IndexProjection, rhs: Features)
    requires |items| == |entries| && projection !in Projections(entries)
    requires AllShaped(items) && IsShaped(rhs) && rhs.weights == []
    ensures Subtracted(items, entries, projection, rhs.indices) == SsubAll(items, rhs)
  {
    AllAreReached(entries, projection);
    forall i | 0 <= i < |items|
      ensures Subtracted(items, entries, projection, rhs.indices)[i] == SsubAll(items, rhs)[i]
    {
      assert entries[i].projection in Projections(entries);
    }
  }

  /** What the subtraction of a boolean projection from these entries makes of one projection. */
  predicate BooleanAfter(v: Features, p: IndexProjection, was: Features, entries: seq<Entry>,
                         projection: IndexProjection, rhs: seq<nat>)
  {
    v == Features(if p in Reached(entries, projection) then TraceSpec.Ssub(was.indices, rhs) else was.indices, was.weights)
  }

  /** What the subtraction of another projection from these entries makes of one projection. */
  predicate NewAfter(v: Features, p: IndexProjection, was: Features, entries: seq<Entry>, rhs: Features) {
    IsShaped(was) && IsShaped(rhs) && v == if p in Projections(entries) then Less(was, rhs) else was
  }

  /** The projection itself, after it has been subtracted from these entries. */
  predicate SelfAfter(v: Features, entries: seq<Entry>, projection: IndexProjection, rhs: seq<nat>) {
    v == Features(if projection in Projections(entries) then TraceSpec.Ssub(rhs, rhs) else rhs, [])
  }

  ghost predicate BooleanAfterAll(entries: seq<Entry>, was: map<IndexProjection, Features>,
                                  projection: IndexProjection, rhs: seq<nat>)
    reads was.Keys, projection
  {
    && SelfAfter(projection.Value(), entries, projection, rhs)
    && forall p :: p in was && p != projection ==> BooleanAfter(p.Value(), p, was[p], entries, projection, rhs)
  }

  ghost predicate NewAfterAll(entries: seq<Entry>, was: map<IndexProjection, Features>, rhs: Features)
    reads was.Keys
  {
    forall p :: p in was ==> NewAfter(p.Value(), p, was[p], entries, rhs)
  }

  lemma BooleanStep(v: Features, v': Features, p: IndexProjection, was: Features, entries: seq<Entry>, entry: Entry,
                    projection: IndexProjection, rhs: seq<nat>, self: Features)
    requires p != projection && BooleanAfter(v, p, was, entries, projection, rhs)
    requires SelfAfter(self, entries, projection, rhs)
    requires IsShaped(v) && v' == if p == entry.projection then Less(v, self) else v
    ensures BooleanAfter(v', p, was, entries + [entry], projection, rhs)
  {
    ReachedStep(entries, projection, entry);
    SsubAgain(was.indices, rhs);
    SsubAgain(v.indices, rhs);
  }

  lemma SelfStep(v: Features, v': Features, entries: seq<Entry>, entry: Entry, projection: IndexProjection, rhs: seq<nat>)
    requires SelfAfter(v, entries, projection, rhs)
    requires v' == if projection == entry.projection then Features(TraceSpec.Ssub(v.indices, v.indices), v.weights) else v
    ensures SelfAfter(v', entries + [entry], projection, rhs)
  {
    PushedProjections(entries, entry);
    SsubAgain(rhs, rhs);
  }

  lemma SelfIsBoolean(v: Features, entries: seq<Entry>, projection: IndexProjection, rhs: seq<nat>)
    requires SelfAfter(v, entries, projection, rhs)
    ensures BooleanAfter(v, projection, Features(rhs, []), entries, projection, rhs)
  {
    if projection in Projections(entries) {
      HeldIsReached(entries, projection);
    } else {
      AllAreReached(entries, projection);
    }
  }

  lemma NewStep(v: Features, v': Features, p: IndexProjection, was: Features, entries: seq<Entry>, ii: nat, rhs: Features)
    requires ii < |entries| && NoneTwice(entries) && NewAfter(v, p, was, entries[..ii], rhs)
    requires IsShaped(v) && v' == if p == entries[ii].projection then Less(v, rhs) else v
    ensures NewAfter(v', p, was, entries[..ii + 1], rhs)
  {
    assert entries[..ii + 1] == entries[..ii] + [entries[ii]];
    PushedProjections(entries[..ii], entries[ii]);
  }

  class EnumeratedTrace {
    var entries: seq<Entry>
    var totalDecay: real

    ghost function Value(): Queue
      reads this, Projections(entries)
    {
      Queue(Items(entries), totalDecay)
    }

    /** The stored total is the product of the stored decays. */
    ghost predicate Valid()
      reads this, Projections(entries)
    {
      Positive(Value().items) && totalDecay == Product(Value().items)
    }

    ghost predicate Shaped()
      reads this, Projections(entries)
    {
      AllShaped(Value().items)
    }

    /** The projection is not in the queue, and if it has weights the queue holds no other one twice. */
    ghost predicate IsNew(projection: IndexProjection)
      reads this, projection
    {
      projection !in Projections(entries) && (projection.weights == [] || NoneTwice(entries))
    }

    constructor ()
      ensures Valid() && Shaped() && Value() == EMPTY
    {
      entries, totalDecay := [], 1.0;
    }

    ghost predicate IsNewest(projection: IndexProjection)
      reads this
    {
      entries != [] && entries[|entries| - 1].projection == projection
    }

    method Clear()
      modifies this
      ensures Valid() && Shaped() && Value() == EMPTY && entries == []
    {
      entries, totalDecay := [], 1.0;
    }

    /** The projection with weight one, the newest; after an addition the one that was added. */
    method Back() returns (projection: IndexProjection?)
      ensures projection == null <==> Value().items == []
      ensures projection != null ==> projection in Projections(entries) && IsNewest(projection)
    {
      assert |Value().items| == |entries|;
      projection := if entries == [] then null else entries[|entries| - 1].projection;
    }

    /** Subtract the new projection from every queued one. */
    method SubtractFromAll(projection: IndexProjection)
      requires Shaped() && projection.Shaped()
      modifies Projections(entries)
      ensures entries == old(entries) && totalDecay == old(totalDecay) && Shaped() && projection.Shaped()
      ensures projection !in Projections(entries) ==> projection.Value() == old(projection.Value())
      ensures old(projection.weights) == [] ==>
                SelfAfter(projection.Value(), entries, projection, old(projection.indices)) &&
                forall p :: p in Projections(entries) ==>
                  BooleanAfter(p.Value(), p, old(p.Value()), entries, projection, old(projection.indices))
      ensures projection !in Projections(entries) && NoneTwice(entries) ==>
                forall p :: p in Projections(entries) ==> NewAfter(p.Value(), p, old(p.Value()), entries, projection.Value())
    {
      ItemsShaped(entries);
      ghost var start := projection.Value();
      ghost var was := map p | p in Projections(entries) :: p.Value();
      for ii := 0 to |entries|
        invariant entries == old(entries) && totalDecay == old(totalDecay)
        invariant AfterFirst(ii, was, projection, start)
      {
        SubtractNext(ii, projection, was, start);
      }
      assert entries[..|entries|] == entries;
      if start.weights == [] {
        SelfIsBoolean(projection.Value(), entries, projection, start.indices);
      }
      ItemsShaped(entries);
    }

    /** The first n entries have been subtracted from. */
    ghost predicate AfterFirst(n: nat, was: map<IndexProjection, Features>, projection: IndexProjection, start: Features)
      requires n <= |entries|
      reads this, projection, Projections(entries)
    {
      && EachShaped(Projections(entries)) && projection.Shaped() && was.Keys == Projections(entries)
      && (projection !in Projections(entries) ==> projection.Value() == start)
      && (start.weights == [] ==> BooleanAfterAll(entries[..n], was, projection, start.indices))
      && (projection !in Projections(entries) && NoneTwice(entries) ==> NewAfterAll(entries[..n], was, start))
    }

    method SubtractNext(ii: nat, projection: IndexProjection, ghost was: map<IndexProjection, Features>,
                        ghost start: Features)
      requires ii < |entries| && AfterFirst(ii, was, projection, start)
      modifies Projections(entries)
      ensures entries == old(entries) && totalDecay == old(totalDecay) && AfterFirst(ii + 1, was, projection, start)
    {
      ghost var entry, self := entries[ii], projection.Value();
      ghost var before := map p | p in Projections(entries) :: p.Value();
      assert entries[..ii + 1] == entries[..ii] + [entry];
      entries[ii].projection.Ssub(projection);
      if start.weights == [] {
        SelfStep(self, projection.Value(), entries[..ii], entry, projection, start.indices);
        forall p | p in was && p != projection
          ensures BooleanAfter(p.Value(), p, was[p], entries[..ii + 1], projection, start.indices)
        {
          BooleanStep(before[p], p.Value(), p, was[p], entries[..ii], entry, projection, start.indices, self);
        }
      }
      if projection !in Projections(entries) && NoneTwice(entries) {
        forall p | p in was
          ensures NewAfter(p.Value(), p, was[p], entries[..ii + 1], start)
        {
          NewStep(before[p], p.Value(), p, was[p], entries, ii, start);
        }
      }
    }

    /** Divide the oldest decay out of the total and forget its projection. */
    method PopFront()
      requires Valid() && entries != []
      modifies this
      ensures Valid() && entries == old(entries)[1..]
      ensures Value() == Queue(old(Value()).items[1..], Product(old(Value()).items[1..]))
    {
      ghost var items := Value().items;
      ProductFront(items);
      DivCancels(items[0].decay, Product(items[1..]));
      totalDecay := totalDecay / entries[0].decay;
      entries := entries[1..];
      assert Items(entries) == items[1..];
    }

    /** Pop old projections while the total decay is below the threshold. */
    method PopFaded(threshold: real)
      requires Valid() && entries != []
      modifies this
      ensures Valid() && Value() == Trim(old(Value()), threshold)
      ensures entries != [] && IsSuffix(entries, old(entries))
    {
      ghost var start := Value();
      while totalDecay < threshold && |entries| > 1
        invariant Valid() && entries != [] && Trim(Value(), threshold) == Trim(start, threshold)
        invariant IsSuffix(entries, old(entries))
        decreases |entries|
      {
        TrimPops(Value(), threshold);
        SuffixOfSuffix(entries, old(entries));
        PopFront();
      }
    }

    /** Push a projection with its decay. */
    method PushBack(projection: IndexProjection, decay: real)
      requires Valid() && 0.0 < decay <= 1.0
      modifies this
      ensures Valid() && entries == old(entries) + [Entry(projection, decay)]
      ensures Value() == Queue(old(Value()).items + [Item(projection.Value(), decay)], Times(decay, old(Value()).total))
    {
      ghost var items, item := Value().items, Item(projection.Value(), decay);
      ProductPush(items, item);
      entries := entries + [Entry(projection, decay)];
      totalDecay := Times(decay, totalDecay);
      assert Value().items == items + [item];
    }

    /** The subtraction as a step of the queue. */
    method Subtract(projection: IndexProjection)
      requires Valid() && Shaped() && projection.Shaped()
      modifies Projections(entries)
      ensures Valid() && Shaped() && projection.Shaped() && entries == old(entries)
      ensures old(IsNew(projection)) ==>
                projection.Value() == old(projection.Value()) &&
                Value().items == SsubAll(old(Value()).items, projection.Value())
      ensures projection in Projections(entries) && old(projection.weights) == [] ==>
                projection.weights == [] && AllInvalid(projection.indices) &&
                Value().items == Subtracted(old(Value()).items, entries, projection, old(projection.indices))
    {
      ghost var items, start := Value().items, projection.Value();
      SubtractFromAll(projection);
      SsubAgain(start.indices, start.indices);
      ProductSameDecays(items, Value().items);
      if start.weights == [] {
        assert Value().items == Subtracted(items, entries, projection, start.indices);
        if projection !in Projections(entries) {
          SubtractedFromAll(items, entries, projection, start);
        }
      }
    }

    /** Push and trim, as both additions do. */
    method Append(projection: IndexProjection, decay: real, threshold: real)
      requires Valid() && 0.0 < decay <= 1.0
      modifies this
      ensures Valid() && Value() == Push(old(Value()).items, Item(projection.Value(), decay), threshold)
      ensures Consistent(Value(), threshold) && IsNewest(projection)
      ensures Projections(entries) <= old(Projections(entries)) + {projection}
    {
      PushConsistent(Value().items, Item(projection.Value(), decay), threshold);
      PushedProjections(entries, Entry(projection, decay));
      PushBack(projection, decay);
      ghost var pushed := entries;
      PopFaded(threshold);
      SuffixKeeps(entries, pushed);
    }

    /**
     `ReplacingEnumeratedTrace::add`. A boolean projection that the queue holds already loses its own indices, and
     the items newer than its oldest entry are not subtracted from.
     */
    method AddReplacing(projection: IndexProjection, decay: real)
      requires Valid() && Shaped() && 0.0 < decay <= 1.0 && projection.Shaped()
      modifies this, Projections(entries)
      ensures Valid() && Shaped() && Consistent(Value(), REPLACING) && IsNewest(projection)
      ensures Projections(entries) <= old(Projections(entries)) + {projection}
      ensures old(IsNew(projection)) || decay < REPLACING ==>
                Value() == TraceSpec.AddReplacing(old(Value()), Item(projection.Value(), decay)) &&
                projection.Value() == old(projection.Value())
      ensures old(projection in Projections(entries) && projection.weights == []) && decay >= REPLACING ==>
                projection.weights == [] && AllInvalid(projection.indices) &&
                Value() == Push(Subtracted(old(Value()).items, old(entries), projection, old(projection.indices)),
                                Item(projection.Value(), decay), REPLACING)
    {
      AddReplacingIsPush(Value(), Item(projection.Value(), decay));
      if decay < REPLACING {
        Clear();
      }
      Subtract(projection);
      ghost var items := Value().items;
      Append(projection, decay, REPLACING);
      PushShaped(items, Item(projection.Value(), decay), REPLACING);
    }

    /** `AccumulatingEnumeratedTrace::add`, which may be given any projection, also one that it holds already. */
    method AddAccumulating(projection: IndexProjection, decay: real)
      requires Valid() && 0.0 < decay <= 1.0
      modifies this
      ensures Valid() && Value() == TraceSpec.AddAccumulating(old(Value()), Item(projection.Value(), decay))
      ensures Consistent(Value(), ACCUMULATING) && IsNewest(projection)
      ensures Projections(entries) <= old(Projections(entries)) + {projection}
    {
      AddIsPush(Value(), Item(projection.Value(), decay));
      if decay < ACCUMULATING {
        Clear();
      }
      Append(projection, decay, ACCUMULATING);
    }
  }

  /** Iterates from the newest projection to the oldest. */
  class TraceIterator {
    const trace: EnumeratedTrace
    var index: nat
    var weight: real

    ghost predicate Valid()
      reads this, trace, Projections(trace.entries)
    {
      trace.Valid() && index <= |trace.entries| && weight == Weight(trace.Value().items, index)
    }

    constructor (trace: EnumeratedTrace)
      requires trace.Valid()
      ensures Valid() && this.trace == trace && index == 0 && fresh(this)
    {
      this.trace, index, weight := trace, 0, 1.0;
      new;
      assert trace.Value() == old(trace.Value());
    }

    method Inc()
      requires Valid() && index < |trace.entries|
      modifies this
      ensures Valid() && index == old(index) + 1 && trace.Value().items == old(trace.Value().items)
    {
      WeightStep(trace.Value().items, index);
      weight := Times(trace.entries[|trace.entries| - index - 1].decay, weight);
      index := index + 1;
      assert trace.Value() == old(trace.Value());
    }
  }

  // ----- Linear representation with one output and no output limits -----

  predicate InRange(indices: seq<nat>, size: nat) {
    forall i :: 0 <= i < |indices| ==> indices[i] == INVALID || indices[i] < size
  }

  class LinearRepresentation {
    const params: array<real>

    constructor (size: nat)
      requires size <= INVALID
      ensures params.Length == size && fresh(params)
    {
      params := new real[size](i => 0.0);
    }

    /** The mean of a boolean projection's parameters, or the weighted sum. */
    method Read(projection: IndexProjection) returns (value: real)
      requires projection.Shaped() && AllLive(projection.Value(), params.Length) && projection.indices != []
      ensures value == MeanReading(params[..], projection.Value())
    {
      value := 0.0;
      for ii := 0 to |projection.indices|
        invariant value == Reading(params[..], projection.Value(), ii)
      {
        var param := params[projection.indices[ii]];
        value := value + if projection.weights == [] then param else Times(param, projection.weights[ii]);
      }
      if projection.weights == [] {
        value := Quotient(value, |projection.indices| as real);
      }
    }

    /** Update for one projection: every live index takes its part of delta, invalid ones are passed over. */
    method Update(projection: IndexProjection, delta: real)
      requires projection.Shaped() && params.Length <= INVALID && InRange(projection.indices, params.Length)
      modifies params
      ensures Moved(old(params[..]), params[..], projection.Value(), |projection.indices|, delta)
    {
      if projection.weights == [] {
        UpdateBoolean(projection, delta);
      } else {
        UpdateWeighted(projection, delta);
      }
    }

    method UpdateBoolean(projection: IndexProjection, delta: real)
      requires projection.weights == [] && params.Length <= INVALID && InRange(projection.indices, params.Length)
      modifies params
      ensures Moved(old(params[..]), params[..], projection.Value(), |projection.indices|, delta)
    {
      for ii := 0 to |projection.indices|
        invariant Moved(old(params[..]), params[..], projection.Value(), ii, delta)
      {
        var index := projection.indices[ii];
        MovedStep(old(params[..]), params[..], projection.Value(), ii, delta);
        if index != INVALID {
          params[index] := params[index] + delta;
        }
      }
    }

    /** The step size for one-step learning is the inverse of the squared norm. */
    method UpdateWeighted(projection: IndexProjection, delta: real)
      requires projection.Shaped() && projection.weights != []
      requires params.Length <= INVALID && InRange(projection.indices, params.Length)
      modifies params
      ensures Moved(old(params[..]), params[..], projection.Value(), |projection.indices|, delta)
    {
      var norm2 := SquaredNorm(projection.weights);
      for ii := 0 to |projection.indices|
        invariant Moved(old(params[..]), params[..], projection.Value(), ii, delta)
      {
        MovedStep(old(params[..]), params[..], projection.Value(), ii, delta);
        Shift(projection, ii, norm2, delta);
      }
    }

    method Shift(projection: IndexProjection, ii: nat, norm2: real, delta: real)
      requires projection.Shaped() && ii < |projection.weights| && norm2 == Norm(projection.weights)
      requires params.Length <= INVALID && InRange(projection.indices, params.Length)
      modifies params
      ensures var index := projection.indices[ii];
              params[..] == if index == INVALID then old(params[..])
                            else old(params[..])[index := old(params[index]) + Times(delta, Share(projection.weights, ii))]
    {
      var index := projection.indices[ii];
      var part := Quotient(Times(projection.weights[ii], delta), norm2);
      TimesQuotient(delta, projection.weights[ii], norm2);
      if index != INVALID {
        params[index] := params[index] + part;
      }
    }

    method SquaredNorm(weights: seq<real>) returns (norm2: real)
      ensures norm2 == Norm(weights)
    {
      norm2 := 0.0;
      for ii := 0 to |weights|
        invariant norm2 == SumOfSquares(weights[..ii])
      {
        assert weights[..ii + 1] == weights[..ii] + [weights[ii]];
        SumsPush(weights[..ii], weights[ii], 0.0);
        norm2 := norm2 + Square(weights[ii]);
      }
      assert weights[..|weights|] == weights;
      if norm2 < LEAST_NORM {
        norm2 := LEAST_NORM;
      }
    }

    /** Every projection has one weight for every index, or none, and only live indices of the parameters. */
    ghost predicate Fits(trace: EnumeratedTrace)
      reads trace, Projections(trace.entries)
    {
      forall i :: 0 <= i < |trace.entries| ==> FitsOne(trace.entries[i].projection)
    }

    ghost predicate FitsOne(projection: IndexProjection)
      reads projection
    {
      projection.Shaped() && InRange(projection.indices, params.Length)
    }

    /**
     `Representation::update` over a trace of either kind: every parameter moves along its eligibility in the newest
     items whose weight is above the cut-off; the other items are skipped, none of them in a replacing trace.
     */
    method UpdateTrace(trace: EnumeratedTrace, delta: real, e: real) returns (ghost used: nat)
      requires trace.Valid() && Fits(trace) && params.Length <= INVALID
      modifies params
      ensures trace.Value() == old(trace.Value()) && UsedAbove(trace.Value().items, used)
      ensures Consistent(trace.Value(), REPLACING) ==> used == |trace.Value().items|
      ensures Updated(old(params[..]), params[..], trace.Value().items, used, Times(delta, e))
    {
      ghost var q, start := trace.Value(), params[..];
      used := Sweep(trace, delta, e, q.items);
      StopsAtCutoff(q.items, used);
      if Consistent(q, REPLACING) {
        AllAreUsed(q, used);
      }
      ProgressEnds(start, params[..], q.items, used, Times(delta, e));
    }

    /** The loop over the trace. */
    method Sweep(trace: EnumeratedTrace, delta: real, e: real, ghost items: seq<Item>) returns (ghost used: nat)
      requires trace.Valid() && Fits(trace) && params.Length <= INVALID && trace.Value().items == items
      modifies params
      ensures trace.Value() == old(trace.Value()) && Progress(old(params[..]), params[..], items, used, Times(delta, e))
      ensures used == |items| || Weight(items, used) <= CUTOFF
      ensures AllAbove(items, used)
    {
      var ii := new TraceIterator(trace);
      while ii.index != |trace.entries| && ii.weight > CUTOFF
        invariant ii.Valid() && ii.trace == trace && fresh(ii) && trace.Value() == old(trace.Value())
        invariant Progress(old(params[..]), params[..], items, ii.index, Times(delta, e))
        invariant AllAbove(items, ii.index)
        decreases |trace.entries| - ii.index
      {
        AboveStep(items, ii.index);
        UpdateOne(ii, delta, e, items, old(params[..]));
      }
      used := ii.index;
    }

    /** One iteration: update the iterator's projection with its weight and move to the next older one. */
    method UpdateOne(ii: TraceIterator, delta: real, e: real, ghost items: seq<Item>, ghost start: seq<real>)
      requires ii.Valid() && ii.index < |items| && ii.trace.Value().items == items && params.Length <= INVALID
      requires FitsOne(ii.trace.entries[|items| - 1 - ii.index].projection)
      requires Progress(start, params[..], items, ii.index, Times(delta, e))
      modifies params, ii
      ensures ii.Valid() && ii.index == old(ii.index) + 1 && ii.trace.Value().items == items
      ensures Progress(start, params[..], items, ii.index, Times(delta, e))
    {
      ghost var before := params[..];
      var projection := ii.trace.entries[|ii.trace.entries| - ii.index - 1].projection;
      var part := ii.weight * delta * e;
      assert part == Times(Times(delta, e), Weight(items, ii.index)) by {
        TimesProduct(ii.weight, delta, e);
      }
      assert items[|items| - 1 - ii.index].features == projection.Value();
      Update(projection, part);
      ProgressStep(start, before, params[..], items, ii.index, Times(delta, e));
      assert ii.trace.Value() == old(ii.trace.Value());
      ii.Inc();
    }
  }

  lemma TimesProduct(w: real, delta: real, e: real)
    ensures w * delta * e == Times(Times(delta, e), w)
  {
  }

  lemma TimesQuotient(delta: real, weight: real, norm: real)
    requires norm > 0.0
    ensures Quotient(Times(weight, delta), norm) == Times(delta, Quotient(weight, norm))
  {
  }
}
