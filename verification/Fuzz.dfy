/**
 Job generation (share/taskmaster/fuzz.py): one job for every combination of parameter values, enumerated by an
 odometer, with the values written into a nested configuration.
 */
module Fuzz {
  import opened Options
  import opened Sequences

  // ----- The odometer -----

  /** A combination picks a value for each parameter. */
  predicate IsCombination(c: seq<nat>, sizes: seq<nat>) {
    |c| == |sizes| && forall i :: 0 <= i < |c| ==> c[i] < sizes[i]
  }

  /** Advances the first wheel, and the next one when it comes around. */
  function Next(c: seq<nat>, sizes: seq<nat>): seq<nat>
    requires |c| == |sizes|
  {
    if c == [] then []
    else if c[0] + 1 == sizes[0] then [0] + Next(c[1..], sizes[1..])
    else [c[0] + 1] + c[1..]
  }

  function Zeros(n: nat): seq<nat> {
    seq(n, _ => 0)
  }

  /** Number of combinations. */
  function Product(sizes: seq<nat>): nat {
    if sizes == [] then 1 else sizes[0] * Product(sizes[1..])
  }

  /** Place of a combination in the enumeration. */
  function Number(c: seq<nat>, sizes: seq<nat>): nat
    requires |c| == |sizes|
  {
    if c == [] then 0 else c[0] + sizes[0] * Number(c[1..], sizes[1..])
  }

  lemma Wheel(digit: nat, size: nat, rest: nat, total: nat)
    requires digit < size && rest < total
    ensures digit + size * rest < size * total
  {
    assert size * (rest + 1) <= size * total;
  }

  lemma {:induction false} NumberIsPlace(c: seq<nat>, sizes: seq<nat>)
    requires IsCombination(c, sizes)
    ensures Number(c, sizes) < Product(sizes)
  {
    if c != [] {
      NumberIsPlace(c[1..], sizes[1..]);
      Wheel(c[0], sizes[0], Number(c[1..], sizes[1..]), Product(sizes[1..]));
    }
  }

  lemma Digits(a: nat, b: nat, x: nat, y: nat, size: nat)
    requires a < size && b < size && a + size * x == b + size * y
    ensures a == b && x == y
  {
    assert x < y ==> size * (x + 1) <= size * y;
    assert y < x ==> size * (y + 1) <= size * x;
  }

  /** No two combinations have the same place. */
  lemma {:induction false} NumberIsUnique(c: seq<nat>, d: seq<nat>, sizes: seq<nat>)
    requires IsCombination(c, sizes) && IsCombination(d, sizes) && Number(c, sizes) == Number(d, sizes)
    ensures c == d
  {
    if c != [] {
      Digits(c[0], d[0], Number(c[1..], sizes[1..]), Number(d[1..], sizes[1..]), sizes[0]);
      NumberIsUnique(c[1..], d[1..], sizes[1..]);
    }
  }

  lemma Carry(size: nat, rest: nat, total: nat)
    requires size > 0
    ensures size - 1 + size * rest + 1 == size * (rest + 1)
    ensures rest + 1 == total <==> size * (rest + 1) == size * total
  {
    if rest + 1 < total {
      assert size * (rest + 2) <= size * total;
    } else if rest + 1 > total {
      assert size * (total + 1) <= size * (rest + 1);
    }
  }

  /** The odometer steps to the next place, and from the last one to the first. */
  lemma {:induction false} NextCounts(c: seq<nat>, sizes: seq<nat>)
    requires IsCombination(c, sizes)
    ensures IsCombination(Next(c, sizes), sizes)
    ensures Number(Next(c, sizes), sizes) ==
            if Number(c, sizes) + 1 == Product(sizes) then 0 else Number(c, sizes) + 1
  {
    if c != [] {
      var n, total := Number(c[1..], sizes[1..]), Product(sizes[1..]);
      NumberIsPlace(c[1..], sizes[1..]);
      if c[0] + 1 == sizes[0] {
        NextCounts(c[1..], sizes[1..]);
        Carry(sizes[0], n, total);
        assert Next(c, sizes)[1..] == Next(c[1..], sizes[1..]);
      } else {
        Wheel(c[0] + 1, sizes[0], n, total);
        assert Next(c, sizes)[1..] == c[1..];
      }
    }
  }

  lemma {:induction false} ZerosComeFirst(sizes: seq<nat>)
    requires forall i :: 0 <= i < |sizes| ==> sizes[i] > 0
    ensures IsCombination(Zeros(|sizes|), sizes) && Number(Zeros(|sizes|), sizes) == 0
  {
    if sizes != [] {
      ZerosComeFirst(sizes[1..]);
      assert Zeros(|sizes|)[1..] == Zeros(|sizes[1..]|);
    }
  }

  /** The carry loop has come to digit i: lower digits are done, the others are as before. */
  predicate Carried(now: seq<nat>, was: seq<nat>, sizes: seq<nat>, i: nat) {
    |now| == |was| == |sizes| && i <= |now| && now[i..] == was[i..] &&
    Next(was, sizes) == now[..i] + Next(was[i..], sizes[i..])
  }

  lemma CarryStarts(was: seq<nat>, sizes: seq<nat>)
    requires |was| == |sizes|
    ensures Carried(was, was, sizes, 0)
  {
    assert was[0..] == was && sizes[0..] == sizes;
  }

  lemma OneChanged(now: seq<nat>, was: seq<nat>, i: nat, digit: nat)
    requires |now| == |was| && i < |now| && now[i..] == was[i..]
    ensures now[i] == was[i]
    ensures now[i := digit] == now[..i] + ([digit] + was[i + 1..])
    ensures now[i := digit][..i + 1] == now[..i] + [digit] && now[i := digit][i + 1..] == was[i + 1..]
  {
    assert now[i] == now[i..][0] && was[i] == was[i..][0];
    assert now[i + 1..] == now[i..][1..] && was[i + 1..] == was[i..][1..];
  }

  lemma Append3(a: seq<nat>, b: seq<nat>, c: seq<nat>)
    ensures a + (b + c) == a + b + c
  {
  }

  lemma CarryGoesOn(now: seq<nat>, was: seq<nat>, sizes: seq<nat>, i: nat)
    requires Carried(now, was, sizes, i) && i < |now|
    ensures now[i] + 1 == sizes[i] ==> Carried(now[i := 0], was, sizes, i + 1)
    ensures now[i] + 1 != sizes[i] ==> Next(was, sizes) == now[i := now[i] + 1]
  {
    assert was[i..][1..] == was[i + 1..] && sizes[i..][1..] == sizes[i + 1..];
    if now[i] + 1 == sizes[i] {
      OneChanged(now, was, i, 0);
      Append3(now[..i], [0], Next(was[i + 1..], sizes[i + 1..]));
    } else {
      OneChanged(now, was, i, was[i] + 1);
    }
  }

  lemma CarryEnds(now: seq<nat>, was: seq<nat>, sizes: seq<nat>)
    requires Carried(now, was, sizes, |now|)
    ensures Next(was, sizes) == now
  {
    assert now[..|now|] + [] == now;
  }

  method Increment(indices: array<nat>, sizes: seq<nat>)
    requires indices.Length == |sizes|
    modifies indices
    ensures indices[..] == Next(old(indices[..]), sizes)
  {
    ghost var was := indices[..];
    CarryStarts(was, sizes);
    for i := 0 to indices.Length
      invariant Carried(indices[..], was, sizes, i)
    {
      ghost var now := indices[..];
      CarryGoesOn(now, was, sizes, i);
      indices[i] := indices[i] + 1;
      if indices[i] == sizes[i] {
        indices[i] := 0;
      } else {
        assert indices[..] == now[i := now[i] + 1];
        return;
      }
      assert indices[..] == now[i := 0];
    }
    CarryEnds(indices[..], was, sizes);
  }

  // ----- Configurations -----

  /** A nested dictionary. */
  datatype Conf = Text(value: string) | Dict(entries: map<string, Conf>)

  type Path = p: seq<string> | p != [] witness [""]

  /** None if the path does not exist. */
  function Get(conf: Conf, path: Path): Option<Conf>
    decreases |path|
  {
    if !conf.Dict? || path[0] !in conf.entries then None
    else if |path| == 1 then Some(conf.entries[path[0]])
    else Get(conf.entries[path[0]], path[1..])
  }

  /** None if the path to the last component does not exist. */
  function Set(conf: Conf, path: Path, value: string): Option<Conf>
    decreases |path|
  {
    if !conf.Dict? then None
    else if |path| == 1 then Some(Dict(conf.entries[path[0] := Text(value)]))
    else if path[0] !in conf.entries then None
    else
      match Set(conf.entries[path[0]], path[1..], value)
      case None => None
      case Some(inner) => Some(Dict(conf.entries[path[0] := inner]))
  }

  lemma {:induction false} SetIsGot(conf: Conf, path: Path, value: string)
    requires Set(conf, path, value).Some?
    ensures Get(Set(conf, path, value).value, path) == Some(Text(value))
    decreases |path|
  {
    if |path| > 1 {
      SetIsGot(conf.entries[path[0]], path[1..], value);
    }
  }

  /** Neither path leads through the other. */
  predicate Apart(p: Path, q: Path) {
    !(p <= q) && !(q <= p)
  }

  lemma {:induction false} SetKeepsOthers(conf: Conf, path: Path, value: string, other: Path)
    requires Set(conf, path, value).Some? && Apart(path, other)
    ensures Get(Set(conf, path, value).value, other) == Get(conf, other)
    decreases |path|
  {
    assert |path| == 1 && path[0] == other[0] ==> path <= other;
    assert |other| == 1 && path[0] == other[0] ==> other <= path;
    if path[0] == other[0] && |path| > 1 && |other| > 1 {
      assert path == [path[0]] + path[1..] && other == [other[0]] + other[1..];
      SetKeepsOthers(conf.entries[path[0]], path[1..], value, other[1..]);
    }
  }

  // ----- Jobs -----

  datatype Parameter = Parameter(name: Path, values: seq<string>)

  function Sizes(parameters: seq<Parameter>): seq<nat> {
    seq(|parameters|, i requires 0 <= i < |parameters| => |parameters[i].values|)
  }

  /** No parameter from `lo` up to `hi` shares a path with `p`. */
  predicate ApartFrom(parameters: seq<Parameter>, lo: nat, hi: nat, p: Path)
    requires hi <= |parameters|
  {
    forall k :: lo <= k < hi ==> Apart(parameters[k].name, p)
  }

  /** The first n parameters have the values of the combination, unless a later one of them writes there again. */
  predicate HasValues(conf: Conf, parameters: seq<Parameter>, c: seq<nat>, n: nat)
    requires n <= |parameters| && IsCombination(c, Sizes(parameters))
  {
    forall i :: 0 <= i < n && ApartFrom(parameters, i + 1, n, parameters[i].name) ==>
      Get(conf, parameters[i].name) == Some(Text(parameters[i].values[c[i]]))
  }

  /** Paths that the first n parameters do not write to are as before. */
  ghost predicate KeepsOthers(orig: Conf, conf: Conf, parameters: seq<Parameter>, n: nat)
    requires n <= |parameters|
  {
    forall p: Path :: ApartFrom(parameters, 0, n, p) ==> Get(conf, p) == Get(orig, p)
  }

  /** The path q leads through p: what is written at p is no longer a dictionary there. */
  predicate LeadsThrough(p: Path, q: Path) {
    p <= q && p != q
  }

  /** One of the parameters from `lo` up to `hi` overwrites a dictionary on the way to p. */
  predicate CutOff(parameters: seq<Parameter>, hi: nat, p: Path)
    requires hi <= |parameters|
  {
    exists k :: 0 <= k < hi && LeadsThrough(parameters[k].name, p)
  }

  /** The path of parameter i is not there, or an earlier parameter has cut it off. */
  predicate Fails(orig: Conf, parameters: seq<Parameter>, i: nat)
    requires i < |parameters|
  {
    Get(orig, parameters[i].name).None? || CutOff(parameters, i, parameters[i].name)
  }

  /** After writing at an existing path the same paths exist, except those that lead through it. */
  lemma {:induction false} SetCutsOff(conf: Conf, path: Path, value: string, p: Path)
    requires Get(conf, path).Some? && Set(conf, path, value).Some?
    ensures Get(Set(conf, path, value).value, p).Some? <==> Get(conf, p).Some? && !LeadsThrough(path, p)
    decreases |path|
  {
    if path[0] != p[0] {
      assert !(path <= p);
    } else if |path| > 1 && |p| > 1 {
      assert path == [path[0]] + path[1..] && p == [p[0]] + p[1..];
      SetCutsOff(conf.entries[path[0]], path[1..], value, p[1..]);
    } else if |path| == 1 {
      assert path <= p && (|p| == 1 ==> path == p);
    }
  }

  /** The paths that exist after the first n parameters have been written. */
  ghost predicate Leaves(orig: Conf, conf: Conf, parameters: seq<Parameter>, n: nat)
    requires n <= |parameters|
  {
    forall p: Path :: Get(conf, p).Some? <==> Get(orig, p).Some? && !CutOff(parameters, n, p)
  }

  lemma LeavesFewer(orig: Conf, conf: Conf, parameters: seq<Parameter>, i: nat, value: string, next: Conf)
    requires i < |parameters| && Leaves(orig, conf, parameters, i)
    requires Get(conf, parameters[i].name).Some? && Set(conf, parameters[i].name, value) == Some(next)
    ensures Leaves(orig, next, parameters, i + 1)
  {
    forall p: Path
      ensures Get(next, p).Some? <==> Get(orig, p).Some? && !CutOff(parameters, i + 1, p)
    {
      SetCutsOff(conf, parameters[i].name, value, p);
      CutOffMore(parameters, i, p);
    }
  }

  lemma CutOffMore(parameters: seq<Parameter>, i: nat, p: Path)
    requires i < |parameters|
    ensures CutOff(parameters, i + 1, p) <==> CutOff(parameters, i, p) || LeadsThrough(parameters[i].name, p)
  {
  }

  /** One more parameter is written. */
  lemma ParameterIsSet(orig: Conf, conf: Conf, parameters: seq<Parameter>, c: seq<nat>, i: nat, next: Conf)
    requires i < |parameters| && IsCombination(c, Sizes(parameters))
    requires HasValues(conf, parameters, c, i) && KeepsOthers(orig, conf, parameters, i)
    requires Set(conf, parameters[i].name, parameters[i].values[c[i]]) == Some(next)
    ensures HasValues(next, parameters, c, i + 1) && KeepsOthers(orig, next, parameters, i + 1)
  {
    var name, value := parameters[i].name, parameters[i].values[c[i]];
    SetIsGot(conf, name, value);
    forall k | 0 <= k < i && ApartFrom(parameters, k + 1, i + 1, parameters[k].name)
      ensures Get(next, parameters[k].name) == Some(Text(parameters[k].values[c[k]]))
    {
      SetKeepsOthers(conf, name, value, parameters[k].name);
    }
    forall p: Path | ApartFrom(parameters, 0, i + 1, p)
      ensures Get(next, p) == Get(orig, p)
    {
      SetKeepsOthers(conf, name, value, p);
    }
  }

  /**
   Writes one combination into the configuration; None exactly if the path of a parameter is not there or is cut off by
   an earlier one. Of parameters with the same path the last one counts.
   */
  method Configure(orig: Conf, parameters: seq<Parameter>, c: seq<nat>) returns (r: Option<Conf>)
    requires IsCombination(c, Sizes(parameters))
    ensures r.Some? ==>
              HasValues(r.value, parameters, c, |parameters|) && KeepsOthers(orig, r.value, parameters, |parameters|)
    ensures r.Some? ==> Leaves(orig, r.value, parameters, |parameters|)
    ensures r.None? <==> exists i :: 0 <= i < |parameters| && Fails(orig, parameters, i)
  {
    var conf := orig;
    for i := 0 to |parameters|
      invariant HasValues(conf, parameters, c, i) && KeepsOthers(orig, conf, parameters, i)
      invariant Leaves(orig, conf, parameters, i)
      invariant forall k :: 0 <= k < i ==> !Fails(orig, parameters, k)
    {
      var name, value := parameters[i].name, parameters[i].values[c[i]];
      assert Get(conf, name).None? <==> Fails(orig, parameters, i);
      if Get(conf, name).None? {
        return None;
      }
      ExistingIsSet(conf, name, value);
      var next := Set(conf, name, value).value;
      ParameterIsSet(orig, conf, parameters, c, i, next);
      LeavesFewer(orig, conf, parameters, i, value, next);
      conf := next;
    }
    return Some(conf);
  }

  lemma {:induction false} ExistingIsSet(conf: Conf, path: Path, value: string)
    requires Get(conf, path).Some?
    ensures Set(conf, path, value).Some?
    decreases |path|
  {
    if |path| > 1 {
      ExistingIsSet(conf.entries[path[0]], path[1..], value);
    }
  }

  /** The combinations visited are the first ones. */
  predicate Enumerates(visited: seq<seq<nat>>, sizes: seq<nat>) {
    forall k :: 0 <= k < |visited| ==> IsCombination(visited[k], sizes) && Number(visited[k], sizes) == k
  }

  lemma VisitsEachOnce(visited: seq<seq<nat>>, sizes: seq<nat>)
    requires Enumerates(visited, sizes) && |visited| == Product(sizes)
    ensures Distinct(visited) && forall c :: c in visited <==> IsCombination(c, sizes)
  {
    forall c | IsCombination(c, sizes)
      ensures c in visited
    {
      NumberIsPlace(c, sizes);
      NumberIsUnique(c, visited[Number(c, sizes)], sizes);
    }
  }

  /** Job k has the values of combination k. */
  predicate Made(made: seq<Conf>, visited: seq<seq<nat>>, parameters: seq<Parameter>) {
    && |made| == |visited| && Enumerates(visited, Sizes(parameters))
    && forall k :: 0 <= k < |visited| ==> HasValues(made[k], parameters, visited[k], |parameters|)
  }

  lemma OneMoreMade(made: seq<Conf>, visited: seq<seq<nat>>, parameters: seq<Parameter>, conf: Conf, c: seq<nat>)
    requires Made(made, visited, parameters)
    requires IsCombination(c, Sizes(parameters)) && Number(c, Sizes(parameters)) == |visited|
    requires HasValues(conf, parameters, c, |parameters|)
    ensures Made(made + [conf], visited + [c], parameters)
  {
  }

  /** After the combination at `n` the odometer is at `n + 1`, or back at the beginning after the last one. */
  lemma StepOrWrap(c: seq<nat>, sizes: seq<nat>, n: nat)
    requires IsCombination(c, sizes) && Number(c, sizes) == n && forall i :: 0 <= i < |sizes| ==> sizes[i] > 0
    ensures n < Product(sizes) && IsCombination(Next(c, sizes), sizes)
    ensures if Next(c, sizes) == Zeros(|sizes|) then n + 1 == Product(sizes)
            else Number(Next(c, sizes), sizes) == n + 1 < Product(sizes)
  {
    NumberIsPlace(c, sizes);
    NextCounts(c, sizes);
    ZerosComeFirst(sizes);
    if Number(Next(c, sizes), sizes) == 0 {
      NumberIsUnique(Next(c, sizes), Zeros(|sizes|), sizes);
    } else {
      NumberIsPlace(Next(c, sizes), sizes);
    }
  }

  /**
   One job for each combination of parameter values: every combination is visited exactly once before the odometer is
   back at the beginning, and each job has the values of its combination. None exactly if a parameter has no values, is
   not in the configuration, or is cut off by an earlier one.
   */
  method ExperimentJobs(orig: Conf, parameters: seq<Parameter>)
    returns (jobs: Option<seq<Conf>>, ghost visited: seq<seq<nat>>)
    ensures jobs.Some? ==> Distinct(visited) && |visited| == Product(Sizes(parameters))
    ensures jobs.Some? ==> forall c :: c in visited <==> IsCombination(c, Sizes(parameters))
    ensures jobs.Some? ==> Made(jobs.value, visited, parameters)
    ensures jobs.None? <==> exists i :: 0 <= i < |parameters| && (parameters[i].values == [] || Fails(orig, parameters, i))
  {
    if exists i :: 0 <= i < |parameters| && parameters[i].values == [] {
      return None, [];
    }
    var sizes := Sizes(parameters);
    var indices := new nat[|parameters|](_ => 0);
    var made := [];
    visited := [];
    assert indices[..] == Zeros(|parameters|);
    ZerosComeFirst(sizes);
    var more := true;
    while more
      invariant IsCombination(indices[..], sizes) && Made(made, visited, parameters)
      invariant !more ==> forall i :: 0 <= i < |parameters| ==> !Fails(orig, parameters, i)
      invariant if more then Number(indices[..], sizes) == |visited| else |visited| == Product(sizes)
      decreases more, Product(sizes) - |visited|
    {
      var conf := Configure(orig, parameters, indices[..]);
      if conf.None? {
        return None, visited;
      }
      OneMoreMade(made, visited, parameters, conf.value, indices[..]);
      StepOrWrap(indices[..], sizes, |visited|);
      made := made + [conf.value];
      visited := visited + [indices[..]];
      Increment(indices, sizes);
      more := indices[..] != Zeros(|sizes|);
    }
    VisitsEachOnce(visited, sizes);
    return Some(made), visited;
  }
}
