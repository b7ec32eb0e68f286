/** Weighted sampling without replacement (base/include/grl/utils.h, sample). Random numbers are inputs. */
module Sampling {
  import opened Reals
  import opened Sequences

  /** Mass of the entries below n that are not selected. */
  function Mass(dist: seq<real>, selected: seq<bool>, n: nat): real
    requires n <= |dist| == |selected|
  {
    if n == 0 then 0.0 else Mass(dist, selected, n - 1) + if selected[n - 1] then 0.0 else dist[n - 1]
  }

  predicate Weights(dist: seq<real>) {
    forall i :: 0 <= i < |dist| ==> dist[i] >= 0.0
  }

  lemma {:induction false} MassOfOne(dist: seq<real>, selected: seq<bool>, i: nat, n: nat)
    requires n <= |dist| == |selected| && i < |dist| && !selected[i]
    ensures Mass(dist, selected[i := true], n) == Mass(dist, selected, n) - if i < n then dist[i] else 0.0
  {
    if n > 0 {
      MassOfOne(dist, selected, i, n - 1);
    }
  }

  lemma {:induction false} MassIsPositive(dist: seq<real>, selected: seq<bool>, n: nat)
    requires n <= |dist| == |selected| && Weights(dist)
    ensures Mass(dist, selected, n) >= 0.0
  {
    if n > 0 {
      MassIsPositive(dist, selected, n - 1);
    }
  }

  lemma {:induction false} MassIsUsedUp(dist: seq<real>, selected: seq<bool>, i: nat, n: nat)
    requires i <= n <= |dist| == |selected|
    requires forall k :: i <= k < n ==> selected[k]
    ensures Mass(dist, selected, n) == Mass(dist, selected, i)
  {
    if i < n {
      MassIsUsedUp(dist, selected, i, n - 1);
    }
  }

  /** Which entry a draw r hits: the first unselected one at which the mass reaches r. */
  predicate Hits(dist: seq<real>, selected: seq<bool>, r: real, i: nat)
    requires |dist| == |selected|
  {
    && i < |dist| && !selected[i] && r <= Mass(dist, selected, i + 1)
    && forall k :: 0 <= k < i && !selected[k] ==> Mass(dist, selected, k + 1) < r
  }

  /** What each of the first n entries still weighs. */
  function Left(dist: seq<real>, selected: seq<bool>, n: nat): seq<real>
    requires n <= |dist| == |selected|
  {
    seq(n, k requires 0 <= k < n => if selected[k] then 0.0 else dist[k])
  }

  lemma {:induction false} MassIsSum(dist: seq<real>, selected: seq<bool>, n: nat)
    requires n <= |dist| == |selected|
    ensures Mass(dist, selected, n) == Sum(Left(dist, selected, n))
  {
    if n > 0 {
      MassIsSum(dist, selected, n - 1);
      var last := if selected[n - 1] then 0.0 else dist[n - 1];
      assert Left(dist, selected, n) == Left(dist, selected, n - 1) + [last];
      SumsPush(Left(dist, selected, n - 1), last, 0.0);
    }
  }

  lemma {:induction false} MassGrows(dist: seq<real>, selected: seq<bool>, i: nat, n: nat)
    requires i <= n <= |dist| == |selected| && Weights(dist)
    ensures Mass(dist, selected, i) <= Mass(dist, selected, n)
  {
    if i < n {
      MassGrows(dist, selected, i, n - 1);
    }
  }

  /**
   An entry is hit by the draws of an interval that is as long as its weight and starts where the weights of the
   unselected entries before it end.
   */
  lemma HitsItsShare(dist: seq<real>, selected: seq<bool>, r: real, i: nat)
    requires |dist| == |selected| && Weights(dist) && i < |dist| && !selected[i] && r > 0.0
    ensures var start := Sum(Left(dist, selected, i));
            Hits(dist, selected, r, i) <==> start < r <= start + dist[i]
  {
    MassIsSum(dist, selected, i);
    if Mass(dist, selected, i) < r {
      forall k | 0 <= k < i && !selected[k]
        ensures Mass(dist, selected, k + 1) < r
      {
        MassGrows(dist, selected, k + 1, i);
      }
    } else {
      var k := MassIsReached(dist, selected, i);
    }
  }

  /** The mass before an entry is reached at an unselected one. */
  lemma {:induction false} MassIsReached(dist: seq<real>, selected: seq<bool>, n: nat) returns (k: nat)
    requires n <= |dist| == |selected| && Mass(dist, selected, n) > 0.0
    ensures k < n && !selected[k] && Mass(dist, selected, k + 1) == Mass(dist, selected, n)
  {
    if selected[n - 1] {
      k := MassIsReached(dist, selected, n - 1);
    } else {
      k := n - 1;
    }
  }

  lemma {:induction false} LastUnselected(selected: seq<bool>, i: nat) returns (last: nat)
    requires i < |selected| && !selected[i]
    ensures last < |selected| && !selected[last] && forall k :: last < k < |selected| ==> selected[k]
    decreases |selected| - i
  {
    if k :| i < k < |selected| && !selected[k] {
      last := LastUnselected(selected, k);
    } else {
      last := i;
    }
  }

  /** A draw between 0 and the unselected mass hits an entry, as long as one is left. */
  lemma DrawHits(dist: seq<real>, selected: seq<bool>, r: real, i: nat)
    requires |dist| == |selected| && i < |dist| && !selected[i] && r <= Mass(dist, selected, |dist|)
    ensures exists k :: 0 <= k < |dist| && !selected[k] && r <= Mass(dist, selected, k + 1)
  {
    var last := LastUnselected(selected, i);
    MassIsUsedUp(dist, selected, last + 1, |dist|);
  }

  /** The scan of one draw. */
  method Draw(dist: seq<real>, selected: array<bool>, r: real) returns (chosen: nat)
    requires |dist| == selected.Length
    requires exists i :: 0 <= i < |dist| && !selected[i]
    requires r <= Mass(dist, selected[..], |dist|)
    ensures Hits(dist, selected[..], r, chosen)
  {
    var v := 0.0;
    chosen := 0;
    for ii := 0 to |dist|
      invariant v == Mass(dist, selected[..], ii)
      invariant forall k :: 0 <= k < ii && !selected[k] ==> Mass(dist, selected[..], k + 1) < r
    {
      if !selected[ii] {
        v := v + dist[ii];
        if r <= v {
          return ii;
        }
      }
    }
    var i :| 0 <= i < |dist| && !selected[i];
    DrawHits(dist, selected[..], r, i);
    assert false;
  }

  /** The draws of one sampling: each entry is hit by its draw, scaled to the mass that the earlier ones left. */
  ghost predicate Drawn(dist: seq<real>, random: seq<real>, chosen: seq<nat>, selected: seq<bool>)
    requires |chosen| <= |random|
    decreases |chosen|
  {
    |selected| == |dist| &&
    if chosen == [] then forall i :: 0 <= i < |dist| ==> !selected[i]
    else
      var kk := |chosen| - 1;
      chosen[kk] < |dist| && selected[chosen[kk]] &&
      var before := selected[chosen[kk] := false];
      Drawn(dist, random, chosen[..kk], before) &&
      Hits(dist, before, Times(random[kk], Mass(dist, before, |dist|)), chosen[kk])
  }

  lemma {:induction false} DrawnAreSelected(dist: seq<real>, random: seq<real>, chosen: seq<nat>, selected: seq<bool>)
    requires |chosen| <= |random| && Drawn(dist, random, chosen, selected)
    ensures Distinct(chosen) && forall i: nat :: i < |dist| ==> (selected[i] <==> i in chosen)
    ensures forall k :: 0 <= k < |chosen| ==> chosen[k] < |dist|
  {
    if chosen != [] {
      var kk := |chosen| - 1;
      DrawnAreSelected(dist, random, chosen[..kk], selected[chosen[kk] := false]);
      assert chosen == chosen[..kk] + [chosen[kk]];
    }
  }

  lemma DrawIsInRange(random: real, mass: real)
    requires 0.0 <= random < 1.0 && mass >= 0.0
    ensures 0.0 <= Times(random, mass) <= mass
  {
    NotNegative(random, mass);
    NotNegative(1.0 - random, mass);
    assert Times(1.0 - random, mass) == mass - Times(random, mass);
  }

  lemma NotNegative(a: real, b: real)
    requires a >= 0.0 && b >= 0.0
    ensures Times(a, b) >= 0.0
  {
  }

  lemma DrawnNext(dist: seq<real>, random: seq<real>, chosen: seq<nat>, selected: seq<bool>, i: nat)
    requires |chosen| < |random| && Drawn(dist, random, chosen, selected)
    requires Hits(dist, selected, Times(random[|chosen|], Mass(dist, selected, |dist|)), i)
    ensures Drawn(dist, random, chosen + [i], selected[i := true])
  {
    assert (chosen + [i])[..|chosen|] == chosen;
    assert selected[i := true][i := false] == selected;
  }

  /** One more entry is drawn; sum is the unselected mass, before and after. */
  method DrawNext(dist: seq<real>, random: seq<real>, chosen: array<nat>, kk: nat, selected: array<bool>, sum: real)
    returns (rest: real)
    requires Weights(dist) && kk < chosen.Length == |random| < |dist| == selected.Length && 0.0 <= random[kk] < 1.0
    requires sum == Mass(dist, selected[..], |dist|) && Drawn(dist, random, chosen[..kk], selected[..])
    modifies chosen, selected
    ensures rest == Mass(dist, selected[..], |dist|) && Drawn(dist, random, chosen[..kk + 1], selected[..])
  {
    ghost var before, earlier := selected[..], chosen[..kk];
    DrawnAreSelected(dist, random, earlier, before);
    SomeIsLeft(earlier, |dist|);
    MassIsPositive(dist, before, |dist|);
    DrawIsInRange(random[kk], sum);
    assert exists i :: 0 <= i < |dist| && !before[i];
    var ii := Draw(dist, selected, Times(random[kk], sum));
    MassOfOne(dist, before, ii, |dist|);
    DrawnNext(dist, random, earlier, before, ii);
    rest := sum - dist[ii];
    chosen[kk] := ii;
    selected[ii] := true;
    assert selected[..] == before[ii := true] && chosen[..kk + 1] == earlier + [ii];
  }

  method FirstNumbers(n: nat) returns (chosen: array<nat>)
    ensures fresh(chosen) && chosen.Length == n && forall k :: 0 <= k < n ==> chosen[k] == k
  {
    chosen := new nat[n](_ => 0);
    for ii := 0 to n
      invariant forall k :: 0 <= k < ii ==> chosen[k] == k
    {
      chosen[ii] := ii;
    }
  }

  method TotalMass(dist: seq<real>, ghost selected: seq<bool>) returns (sum: real)
    requires |selected| == |dist| && forall i :: 0 <= i < |dist| ==> !selected[i]
    ensures sum == Mass(dist, selected, |dist|)
  {
    sum := 0.0;
    for ii := 0 to |dist|
      invariant sum == Mass(dist, selected, ii)
    {
      sum := sum + dist[ii];
    }
  }

  /**
   n draws without replacement. With fewer draws than entries, every draw succeeds and the choices are distinct and in
   range; otherwise the first n numbers are returned, which are entries only up to the size of the distribution.
   */
  method Sample(dist: seq<real>, n: nat, random: seq<real>) returns (chosen: array<nat>, ghost selection: seq<bool>)
    requires Weights(dist) && |random| == n && forall k :: 0 <= k < n ==> 0.0 <= random[k] < 1.0
    ensures chosen.Length == n
    ensures n >= |dist| ==> forall k :: 0 <= k < n ==> chosen[k] == k
    ensures n < |dist| ==> Drawn(dist, random, chosen[..], selection)
    ensures n <= |dist| ==> Distinct(chosen[..]) && forall k :: 0 <= k < n ==> chosen[k] < |dist|
  {
    selection := [];
    if n >= |dist| {
      chosen := FirstNumbers(n);
      return;
    }
    chosen := new nat[n](_ => 0);
    var selected := new bool[|dist|](_ => false);
    var sum := TotalMass(dist, selected[..]);
    for kk := 0 to n
      invariant sum == Mass(dist, selected[..], |dist|) && Drawn(dist, random, chosen[..kk], selected[..])
    {
      sum := DrawNext(dist, random, chosen, kk, selected, sum);
    }
    selection := selected[..];
    assert chosen[..n] == chosen[..];
    DrawnAreSelected(dist, random, chosen[..], selection);
  }
}
