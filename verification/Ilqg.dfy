/**
 Iterative LQG (addons/lqr/src/ilqg.cpp, ILQGSolver::resolve) for one state and one control: regularization, line
 search and acceptance. The model and its derivatives are unknown functions.
 */
module Ilqg {
  import opened Options
  import opened IlqgSpec
  import Reals

  datatype Transition = Transition(next: real, reward: real)

  /** A step of the model from a state with an action; None if the prediction fails. */
  type Model = (real, real) -> Option<Transition>

  // ----- Backward pass -----

  lemma {:induction false} FailureStays(stages: seq<Stage>, end: Value, damping: real, mode: Regularization, i: nat)
    requires i <= |stages| && Back(stages[i..], end, damping, mode).None?
    ensures Back(stages, end, damping, mode).None?
  {
    if i > 0 {
      assert stages[i..] == stages[1..][i - 1..];
      FailureStays(stages[1..], end, damping, mode, i - 1);
    } else {
      assert stages[0..] == stages;
    }
  }

  method BackwardPass(stages: seq<Stage>, end: Value, damping: real, mode: Regularization)
    returns (ok: bool, gains: array<Gain>, dV0: real, dV1: real)
    ensures fresh(gains) && gains.Length == |stages|
    ensures ok <==> Back(stages, end, damping, mode).Some?
    ensures ok ==> var p := Back(stages, end, damping, mode).value;
                   gains[..] == p.gains && dV0 == p.dV0 && dV1 == p.dV1
  {
    gains := new Gain[|stages|](_ => Gain(0.0, 0.0));
    dV0, dV1 := 0.0, 0.0;
    var v := end;
    var i := |stages|;
    assert stages[i..] == [] && gains[i..] == [];
    while i > 0
      invariant 0 <= i <= |stages|
      invariant Back(stages[i..], end, damping, mode) == Some(Pass(v, dV0, dV1, gains[i..]))
    {
      i := i - 1;
      ghost var later := gains[i + 1..];
      assert stages[i..][1..] == stages[i + 1..];
      var q := Expand(stages[i], v, damping, mode);
      if q.quuF <= 0.0 {
        FailureStays(stages, end, damping, mode, i);
        return false, gains, dV0, dV1;
      }
      var g := GainOf(q);
      dV0, dV1 := dV0 + Linear(q, g), dV1 + Curved(q, g);
      v := ValueOf(q, g);
      gains[i] := g;
      assert gains[i..] == [g] + later;
    }
    assert stages[0..] == stages && gains[0..] == gains[..];
    ok := true;
  }

  // ----- Forward pass -----

  /** The control at step i: feedforward, and feedback if a gain is available. */
  function ControlAt(x: seq<real>, u: seq<real>, gains: seq<Gain>, i: nat, state: real): real
    requires i < |u| && |gains| <= |x|
  {
    if i < |gains| then u[i] + gains[i].K * (state - x[i]) else u[i]
  }

  /** Can the model be followed to the end from step i on? */
  predicate Completes(model: Model, x: seq<real>, u: seq<real>, gains: seq<Gain>, i: nat, state: real)
    requires i <= |u| && |gains| <= |x|
    decreases |u| - i
  {
    i == |u| ||
    var next := model(state, ControlAt(x, u, gains, i, state));
    next.Some? && Completes(model, x, u, gains, i + 1, next.value.next)
  }

  datatype Trajectory = Trajectory(x: seq<real>, u: seq<real>, cost: seq<real>)

  function TotalCost(t: Trajectory): real {
    Reals.Sum(t.cost)
  }

  /** States, controls and costs of the first n steps fit the model. */
  predicate FitsModel(model: Model, t: Trajectory, n: nat) {
    n <= |t.u| && n <= |t.cost| && n < |t.x| &&
    forall i :: 0 <= i < n ==> model(t.x[i], t.u[i]) == Some(Transition(t.x[i + 1], -t.cost[i]))
  }

  /** A trajectory of the model from state x0 over the horizon, without final cost. */
  predicate IsRollout(model: Model, x0: real, horizon: nat, t: Trajectory) {
    && |t.u| == horizon && |t.x| == horizon + 1 && |t.cost| == horizon + 1
    && FitsModel(model, t, horizon) && t.x[0] == x0 && t.cost[horizon] == 0.0
  }

  /** The trajectory uses the given controls, with feedback around the states x. */
  predicate Tracks(t: Trajectory, x: seq<real>, u: seq<real>, gains: seq<Gain>, n: nat)
    requires |gains| <= |x|
  {
    n <= |t.u| && n <= |u| && n <= |t.x| &&
    forall i :: 0 <= i < n ==> t.u[i] == ControlAt(x, u, gains, i, t.x[i])
  }

  /** The rollout from x0 with these controls and gains; None if the model fails on the way. */
  method ForwardPass(model: Model, x0: real, x: seq<real>, u: seq<real>, gains: seq<Gain>) returns (r: Option<Trajectory>)
    requires |gains| <= |x|
    ensures r.Some? <==> Completes(model, x, u, gains, 0, x0)
    ensures r.Some? ==> IsRollout(model, x0, |u|, r.value) && Tracks(r.value, x, u, gains, |u|)
  {
    var xnew, unew, cnew: seq<real> := [x0], [], [];
    for i := 0 to |u|
      invariant |unew| == i && |xnew| == i + 1 && |cnew| == i && xnew[0] == x0
      invariant FitsModel(model, Trajectory(xnew, unew, cnew), i)
      invariant Tracks(Trajectory(xnew, unew, cnew), x, u, gains, i)
      invariant Completes(model, x, u, gains, i, xnew[i]) == Completes(model, x, u, gains, 0, x0)
    {
      var control := ControlAt(x, u, gains, i, xnew[i]);
      var next := model(xnew[i], control);
      if next.None? {
        return None;
      }
      xnew, unew, cnew := xnew + [next.value.next], unew + [control], cnew + [-next.value.reward];
    }
    return Some(Trajectory(xnew, unew, cnew + [0.0]));
  }

  // ----- Regularization -----

  /** Settings of the solver. */
  datatype Settings = Settings(mode: Regularization, factor: real, lambdaMin: real, lambdaMax: real, tolerance: real,
                               maxIterations: nat, steps: seq<real>)

  /** A growth factor above 1, positive limits, and step sizes in (0, 1]. */
  predicate Usable(c: Settings) {
    && c.factor > 1.0 && 0.0 < c.lambdaMin < c.lambdaMax
    && |c.steps| > 0 && forall i :: 0 <= i < |c.steps| ==> 0.0 < c.steps[i] <= 1.0
  }

  /** The regularization parameter and its rate of change. */
  datatype Lambda = Lambda(value: real, rate: real)

  predicate Positive(l: Lambda) {
    l.value >= 0.0 && l.rate > 0.0
  }

  function Max(a: real, b: real): real {
    if a >= b then a else b
  }

  function Min(a: real, b: real): real {
    if a <= b then a else b
  }

  function Increased(c: Settings, l: Lambda): Lambda {
    var rate := Max(Reals.Times(l.rate, c.factor), c.factor);
    Lambda(Max(Reals.Times(l.value, rate), c.lambdaMin), rate)
  }

  function LowerRate(rate: real, factor: real): (r: real)
    requires factor > 1.0
  {
    Min(rate / factor, 1.0 / factor)
  }

  function Decreased(c: Settings, l: Lambda): Lambda
    requires Usable(c)
  {
    var rate := LowerRate(l.rate, c.factor);
    Lambda(if l.value > c.lambdaMin then Reals.Times(l.value, rate) else 0.0, rate)
  }

  function Power(b: real, n: nat): real {
    if n == 0 then 1.0 else Reals.Times(b, Power(b, n - 1))
  }

  lemma {:induction false} PowerGrows(b: real, n: nat)
    requires b > 1.0
    ensures Power(b, n) >= 1.0 && (n > 0 ==> Power(b, n) >= b)
  {
    if n > 0 {
      PowerGrows(b, n - 1);
      Product(b, Power(b, n - 1) - 1.0);
      assert Reals.Times(b, Power(b, n - 1)) == b + Reals.Times(b, Power(b, n - 1) - 1.0);
    }
  }

  lemma TimesOrder(a: real, b: real, m: real)
    requires m >= 0.0
    ensures Max(Reals.Times(a, m), Reals.Times(b, m)) == Reals.Times(Max(a, b), m)
  {
    Product(Max(a, b) - Min(a, b), m);
    assert Reals.Times(Max(a, b), m) - Reals.Times(Min(a, b), m) == Reals.Times(Max(a, b) - Min(a, b), m);
  }

  /** After n increases in a row the rate is the n-th power of the factor, times what it was if that was more than one. */
  lemma {:induction false} RateRises(c: Settings, l: Lambda, n: nat)
    requires Usable(c) && Positive(l)
    ensures Raised(c, l, n + 1).rate == Reals.Times(if l.rate > 1.0 then l.rate else 1.0, Power(c.factor, n + 1))
    ensures var grown := Reals.Times(Raised(c, l, n).value, Raised(c, l, n + 1).rate);
            Raised(c, l, n + 1).value == if grown > c.lambdaMin then grown else c.lambdaMin
  {
    var m := Max(l.rate, 1.0);
    assert Power(c.factor, 0) == 1.0;
    if n == 0 {
      TimesOrder(l.rate, 1.0, c.factor);
      assert Reals.Times(1.0, c.factor) == c.factor;
      assert Power(c.factor, 1) == c.factor;
      assert Raised(c, l, 1) == Increased(c, l);
    } else {
      RateRises(c, l, n - 1);
      PowerGrows(c.factor, n);
      AtLeastOne(m, Power(c.factor, n));
      TimesOrder(Reals.Times(m, Power(c.factor, n)), 1.0, c.factor);
      assert Reals.Times(1.0, c.factor) == c.factor;
      Shuffle(m, Power(c.factor, n), c.factor);
    }
  }

  lemma AtLeastOne(x: real, y: real)
    requires x >= 1.0 && y >= 1.0
    ensures Reals.Times(x, y) >= 1.0
  {
    Product(x - 1.0, y);
    assert Reals.Times(x, y) - y == Reals.Times(x - 1.0, y);
  }

  lemma Shuffle(a: real, b: real, f: real)
    ensures Reals.Times(Reals.Times(a, b), f) == Reals.Times(a, Reals.Times(f, b))
  {
  }

  /** A decrease divides the rate by the factor, from one if it was more, and takes a small lambda away altogether. */
  lemma RateFalls(c: Settings, l: Lambda)
    requires Usable(c) && Positive(l)
    ensures var m, part := Decreased(c, l), if l.rate < 1.0 then l.rate else 1.0;
            && Reals.Times(m.rate, c.factor) == part
            && (l.value <= c.lambdaMin ==> m.value == 0.0)
            && (l.value > c.lambdaMin ==> Reals.Times(m.value, c.factor) == Reals.Times(l.value, part))
  {
    var rate := Decreased(c, l).rate;
    Quotient(l.rate, c.factor);
    Quotient(1.0, c.factor);
    Shuffle(l.value, rate, c.factor);
    Commute(c.factor, rate);
  }

  lemma Commute(a: real, b: real)
    ensures Reals.Times(a, b) == Reals.Times(b, a)
  {
  }

  lemma IncreaseGrows(c: Settings, l: Lambda)
    requires Usable(c) && Positive(l)
    ensures var m := Increased(c, l);
            && Positive(m) && m.value >= c.lambdaMin && m.rate >= c.factor
            && (l.value >= c.lambdaMin ==> m.value >= l.value + Least(c))
  {
    var m := Increased(c, l);
    if l.value >= c.lambdaMin {
      Grows(l.value, c.lambdaMin, m.rate, c.factor);
    }
  }

  lemma Grows(value: real, low: real, rate: real, factor: real)
    requires value >= low > 0.0 && rate >= factor > 1.0
    ensures Reals.Times(value, rate) >= value + Reals.Times(low, factor - 1.0)
  {
    Product(value, rate - factor);
    Product(value - low, factor - 1.0);
    Expanded(value, low, rate, factor);
  }

  lemma Expanded(value: real, low: real, rate: real, factor: real)
    ensures Reals.Times(value, rate) ==
            value + Reals.Times(low, factor - 1.0) + Reals.Times(value, rate - factor) +
            Reals.Times(value - low, factor - 1.0)
  {
  }

  lemma Product(a: real, b: real)
    requires a >= 0.0 && b >= 0.0
    ensures Reals.Times(a, b) >= 0.0
    ensures a > 0.0 && b > 0.0 ==> Reals.Times(a, b) > 0.0
  {
  }

  /** A quotient times its divisor. */
  lemma Quotient(a: real, unit: real)
    requires unit > 0.0
    ensures Reals.Times(a / unit, unit) == a
    ensures a > 0.0 <==> a / unit > 0.0
    ensures a >= 0.0 <==> a / unit >= 0.0
  {
  }

  lemma DecreaseKeeps(c: Settings, l: Lambda)
    requires Usable(c) && Positive(l)
    ensures Positive(Decreased(c, l)) && Decreased(c, l).value <= l.value
  {
    LowerRateIsPositive(l.rate, c.factor);
    Shrinks(l.value, Decreased(c, l).rate);
  }

  lemma LowerRateIsPositive(rate: real, factor: real)
    requires rate > 0.0 && factor > 1.0
    ensures 0.0 < LowerRate(rate, factor) <= 1.0
  {
    Quotient(rate, factor);
    Reciprocal(factor);
  }

  lemma Reciprocal(factor: real)
    requires factor > 1.0
    ensures 0.0 < 1.0 / factor < 1.0
  {
  }

  lemma Shrinks(value: real, rate: real)
    requires value >= 0.0 && 0.0 < rate <= 1.0
    ensures 0.0 <= Reals.Times(value, rate) <= value
  {
    Product(value, 1.0 - rate);
    Product(value, rate);
    assert Reals.Times(value, 1.0 - rate) == value - Reals.Times(value, rate);
  }

  /** How many increases are left before the limit, once damping has reached its minimum. */
  function Headroom(c: Settings, l: Lambda): real
    requires Usable(c)
  {
    (c.lambdaMax - l.value) / Least(c)
  }

  /** The least increase of a damping that has reached its minimum. */
  function Least(c: Settings): (r: real)
    requires Usable(c)
    ensures r > 0.0
  {
    Product(c.lambdaMin, c.factor - 1.0);
    Reals.Times(c.lambdaMin, c.factor - 1.0)
  }

  lemma HeadroomShrinks(c: Settings, l: Lambda)
    requires Usable(c) && Positive(l) && l.value >= c.lambdaMin
    ensures Headroom(c, Increased(c, l)) <= Headroom(c, l) - 1.0
  {
    IncreaseGrows(c, l);
    QuotientShrinks(c.lambdaMax - Increased(c, l).value, c.lambdaMax - l.value, Least(c));
  }

  lemma QuotientShrinks(a: real, b: real, unit: real)
    requires unit > 0.0 && a <= b - unit
    ensures a / unit <= b / unit - 1.0
  {
    var p, q := a / unit, b / unit;
    Quotient(a, unit);
    Quotient(b, unit);
    assert Reals.Times(p - q + 1.0, unit) == Reals.Times(p, unit) - Reals.Times(q, unit) + unit;
    NotPositive(p - q + 1.0, unit);
  }

  lemma NotPositive(a: real, unit: real)
    requires unit > 0.0 && Reals.Times(a, unit) <= 0.0
    ensures a <= 0.0
  {
    if a > 0.0 {
      Product(a, unit);
    }
  }

  lemma HeadroomIsPositive(c: Settings, l: Lambda)
    requires Usable(c) && l.value <= c.lambdaMax
    ensures Headroom(c, l) >= 0.0
  {
    Quotient(c.lambdaMax - l.value, Least(c));
  }

  /** The damping after n increases. */
  function Raised(c: Settings, l: Lambda, n: nat): Lambda {
    if n == 0 then l else Increased(c, Raised(c, l, n - 1))
  }

  /** The first n backward passes fail, each at one more increase, and none of the increases but the last passes the limit. */
  predicate Raises(c: Settings, stages: seq<Stage>, end: Value, start: Lambda, n: nat) {
    && (forall k :: 0 <= k < n ==> Back(stages, end, Raised(c, start, k).value, c.mode).None?)
    && (forall k :: 0 < k < n ==> Raised(c, start, k).value <= c.lambdaMax)
  }

  lemma RaisesMore(c: Settings, stages: seq<Stage>, end: Value, start: Lambda, n: nat)
    requires Raises(c, stages, end, start, n) && Back(stages, end, Raised(c, start, n).value, c.mode).None?
    requires n == 0 || Raised(c, start, n).value <= c.lambdaMax
    ensures Raises(c, stages, end, start, n + 1)
  {
  }

  /** The n-th increase is still allowed. */
  predicate WithinLimit(c: Settings, start: Lambda, n: nat) {
    n == 0 || Raised(c, start, n).value <= c.lambdaMax
  }

  /**
   Repeats the backward pass with growing damping until it succeeds or the limit is passed. The damping is the start
   increased once for every failed pass.
   */
  method BackwardUntilSuccess(c: Settings, stages: seq<Stage>, end: Value, start: Lambda)
    returns (ok: bool, damping: Lambda, gains: array<Gain>, dV0: real, dV1: real, ghost n: nat)
    requires Usable(c) && Positive(start)
    ensures Positive(damping)
    ensures Raises(c, stages, end, start, n) && damping == Raised(c, start, n)
    ensures ok <==> WithinLimit(c, start, n)
    ensures ok ==> var r := Back(stages, end, damping.value, c.mode);
                   r.Some? && gains[..] == r.value.gains && dV0 == r.value.dV0 && dV1 == r.value.dV1
  {
    damping, n := start, 0;
    ok, gains, dV0, dV1 := BackwardPass(stages, end, damping.value, c.mode);
    while !ok
      invariant Positive(damping)
      invariant Raises(c, stages, end, start, n) && damping == Raised(c, start, n) && WithinLimit(c, start, n)
      invariant ok <==> Back(stages, end, damping.value, c.mode).Some?
      invariant ok ==> var r := Back(stages, end, damping.value, c.mode);
                       gains[..] == r.value.gains && dV0 == r.value.dV0 && dV1 == r.value.dV1
      decreases !ok, damping.value < c.lambdaMin, Headroom(c, damping)
    {
      ghost var before := damping;
      RaisesMore(c, stages, end, start, n);
      IncreaseGrows(c, damping);
      damping := Increased(c, damping);
      n := n + 1;
      if damping.value > c.lambdaMax {
        return false, damping, gains, dV0, dV1, n;
      }
      HeadroomIsPositive(c, damping);
      if before.value >= c.lambdaMin {
        HeadroomShrinks(c, before);
        HeadroomIsPositive(c, before);
      }
      ok, gains, dV0, dV1 := BackwardPass(stages, end, damping.value, c.mode);
    }
  }

  // ----- Line search -----

  datatype Search = Failed | NotFound | Found(t: Trajectory)

  /** The controls moved along the feedforward terms. */
  function Stepped(u: seq<real>, gains: seq<Gain>, alpha: real): seq<real>
    requires |gains| == |u|
  {
    seq(|u|, i requires 0 <= i < |u| => u[i] + gains[i].k * alpha)
  }

  /** A rollout with the new gains and a step alpha. */
  predicate IsTrial(model: Model, t: Trajectory, gains: seq<Gain>, alpha: real, trial: Trajectory)
    requires |gains| == |t.u| < |t.x|
  {
    IsRollout(model, t.x[0], |t.u|, trial) && Tracks(trial, t.x, Stepped(t.u, gains, alpha), gains, |t.u|)
  }

  /** A step that does not lower the total cost. */
  ghost predicate Useless(model: Model, t: Trajectory, gains: seq<Gain>, alpha: real)
    requires |gains| == |t.u| < |t.x|
  {
    exists trial :: IsTrial(model, t, gains, alpha, trial) && TotalCost(trial) >= TotalCost(t)
  }

  /** The first of the steps that lowers the total cost leads to this trajectory. */
  ghost predicate FirstUseful(steps: seq<real>, model: Model, t: Trajectory, gains: seq<Gain>, better: Trajectory)
    requires |gains| == |t.u| < |t.x|
  {
    TotalCost(better) < TotalCost(t) &&
    exists ff :: 0 <= ff < |steps| && IsTrial(model, t, gains, steps[ff], better) &&
                 forall k :: 0 <= k < ff ==> Useless(model, t, gains, steps[k])
  }

  /** No step lowers the total cost. */
  ghost predicate NoneUseful(steps: seq<real>, model: Model, t: Trajectory, gains: seq<Gain>)
    requires |gains| == |t.u| < |t.x|
  {
    forall k :: 0 <= k < |steps| ==> Useless(model, t, gains, steps[k])
  }

  /** Can the model be followed with this step? */
  predicate CanTry(model: Model, t: Trajectory, gains: seq<Gain>, alpha: real)
    requires |gains| == |t.u| < |t.x|
  {
    Completes(model, t.x, Stepped(t.u, gains, alpha), gains, 0, t.x[0])
  }

  /** The model fails for one of the steps, and the ones before do not lower the total cost. */
  ghost predicate FailsFirst(steps: seq<real>, model: Model, t: Trajectory, gains: seq<Gain>)
    requires |gains| == |t.u| < |t.x|
  {
    exists ff :: 0 <= ff < |steps| && !CanTry(model, t, gains, steps[ff]) &&
                 forall k :: 0 <= k < ff ==> Useless(model, t, gains, steps[k])
  }

  function Sign(x: real): real {
    if x > 0.0 then 1.0 else if x < 0.0 then -1.0 else 0.0
  }

  lemma RatioIsPositive(dcost: real, expected: real)
    requires expected > 0.0
    ensures dcost / expected > 0.0 <==> dcost > 0.0
  {
  }

  /**
   Tries decreasing steps and takes the first one that lowers the total cost, unless the model fails before. The gains
   and expected changes are those of a successful backward pass.
   */
  method LineSearch(c: Settings, model: Model, t: Trajectory, gains: seq<Gain>, dV0: real, dV1: real,
                    ghost stages: seq<Stage>, ghost end: Value, ghost damping: real) returns (r: Search)
    requires Usable(c) && |gains| == |t.u| < |t.x| && damping >= 0.0
    requires var p := Back(stages, end, damping, c.mode);
             p.Some? && gains == p.value.gains && dV0 == p.value.dV0 && dV1 == p.value.dV1
    ensures r.Found? ==> FirstUseful(c.steps, model, t, gains, r.t)
    ensures r.NotFound? ==> NoneUseful(c.steps, model, t, gains)
    ensures r.Failed? ==> FailsFirst(c.steps, model, t, gains)
  {
    for ff := 0 to |c.steps|
      invariant forall k :: 0 <= k < ff ==> Useless(model, t, gains, c.steps[k])
    {
      var alpha := c.steps[ff];
      var trial := ForwardPass(model, t.x[0], t.x, Stepped(t.u, gains, alpha), gains);
      if trial.None? {
        assert !CanTry(model, t, gains, alpha);
        return Failed;
      }
      assert IsTrial(model, t, gains, alpha, trial.value);
      var dcost := TotalCost(t) - TotalCost(trial.value);
      var expected := -Change(dV0, dV1, alpha);
      var z;
      if expected > 0.0 {
        z := dcost / expected;
        RatioIsPositive(dcost, expected);
      } else {
        // Should not occur: it takes a gradient that is zero everywhere.
        ExpectedIsPositive(stages, end, damping, c.mode, alpha);
        assert NoChange(gains);
        z := Sign(dcost);
      }
      if z > 0.0 {
        return Found(trial.value);
      }
    }
    return NotFound;
  }

  // ----- The outcome of the search is determined -----

  /** Two rollouts with the same controls and feedback agree up to step n. */
  lemma {:induction false} RolloutsAgree(model: Model, x0: real, horizon: nat, a: Trajectory, b: Trajectory,
                                         x: seq<real>, u: seq<real>, gains: seq<Gain>, n: nat)
    requires |gains| <= |x| && |u| == horizon && n <= horizon
    requires IsRollout(model, x0, horizon, a) && Tracks(a, x, u, gains, horizon)
    requires IsRollout(model, x0, horizon, b) && Tracks(b, x, u, gains, horizon)
    ensures a.x[n] == b.x[n] && forall i :: 0 <= i < n ==> a.x[i] == b.x[i] && a.u[i] == b.u[i] && a.cost[i] == b.cost[i]
  {
    if n > 0 {
      RolloutsAgree(model, x0, horizon, a, b, x, u, gains, n - 1);
      assert model(a.x[n - 1], a.u[n - 1]) == model(b.x[n - 1], b.u[n - 1]);
    }
  }

  lemma TrialIsUnique(model: Model, t: Trajectory, gains: seq<Gain>, alpha: real, a: Trajectory, b: Trajectory)
    requires |gains| == |t.u| < |t.x| && IsTrial(model, t, gains, alpha, a) && IsTrial(model, t, gains, alpha, b)
    ensures a == b
  {
    RolloutsAgree(model, t.x[0], |t.u|, a, b, t.x, Stepped(t.u, gains, alpha), gains, |t.u|);
    assert a.x == b.x && a.u == b.u && a.cost == b.cost;
  }

  /** A model that has been followed can be followed. */
  lemma {:induction false} RolloutCompletes(model: Model, x0: real, horizon: nat, a: Trajectory, x: seq<real>, u: seq<real>,
                                            gains: seq<Gain>, i: nat)
    requires |gains| <= |x| && |u| == horizon && i <= horizon
    requires IsRollout(model, x0, horizon, a) && Tracks(a, x, u, gains, horizon)
    ensures Completes(model, x, u, gains, i, a.x[i])
    decreases horizon - i
  {
    if i < horizon {
      RolloutCompletes(model, x0, horizon, a, x, u, gains, i + 1);
    }
  }

  /** A step that is tried in vain does not fail, and its rollout does not lower the cost. */
  lemma UselessIsDecided(model: Model, t: Trajectory, gains: seq<Gain>, alpha: real)
    requires |gains| == |t.u| < |t.x| && Useless(model, t, gains, alpha)
    ensures CanTry(model, t, gains, alpha)
    ensures forall better :: IsTrial(model, t, gains, alpha, better) ==> TotalCost(better) >= TotalCost(t)
  {
    var trial :| IsTrial(model, t, gains, alpha, trial) && TotalCost(trial) >= TotalCost(t);
    RolloutCompletes(model, t.x[0], |t.u|, trial, t.x, Stepped(t.u, gains, alpha), gains, 0);
    forall better | IsTrial(model, t, gains, alpha, better)
      ensures better == trial
    {
      TrialIsUnique(model, t, gains, alpha, better, trial);
    }
  }

  lemma FirstUsefulIsUnique(steps: seq<real>, model: Model, t: Trajectory, gains: seq<Gain>, a: Trajectory, b: Trajectory)
    requires |gains| == |t.u| < |t.x| && FirstUseful(steps, model, t, gains, a) && FirstUseful(steps, model, t, gains, b)
    ensures a == b
  {
    var i :| 0 <= i < |steps| && IsTrial(model, t, gains, steps[i], a) &&
             forall k :: 0 <= k < i ==> Useless(model, t, gains, steps[k]);
    var j :| 0 <= j < |steps| && IsTrial(model, t, gains, steps[j], b) &&
             forall k :: 0 <= k < j ==> Useless(model, t, gains, steps[k]);
    if i < j {
      UselessIsDecided(model, t, gains, steps[i]);
    } else if j < i {
      UselessIsDecided(model, t, gains, steps[j]);
    } else {
      TrialIsUnique(model, t, gains, steps[i], a, b);
    }
  }

  lemma UsefulOrNot(steps: seq<real>, model: Model, t: Trajectory, gains: seq<Gain>, better: Trajectory)
    requires |gains| == |t.u| < |t.x| && FirstUseful(steps, model, t, gains, better)
    ensures !NoneUseful(steps, model, t, gains) && !FailsFirst(steps, model, t, gains)
  {
    var i :| 0 <= i < |steps| && IsTrial(model, t, gains, steps[i], better) &&
             forall k :: 0 <= k < i ==> Useless(model, t, gains, steps[k]);
    RolloutCompletes(model, t.x[0], |t.u|, better, t.x, Stepped(t.u, gains, steps[i]), gains, 0);
    assert CanTry(model, t, gains, steps[i]);
    if Useless(model, t, gains, steps[i]) {
      UselessIsDecided(model, t, gains, steps[i]);
    }
    forall k | 0 <= k < i
      ensures CanTry(model, t, gains, steps[k])
    {
      UselessIsDecided(model, t, gains, steps[k]);
    }
  }

  /** At most one of the three outcomes of the line search is possible, and only one trajectory can be found. */
  lemma SearchIsDecided(steps: seq<real>, model: Model, t: Trajectory, gains: seq<Gain>, better: Trajectory)
    requires |gains| == |t.u| < |t.x|
    ensures !(NoneUseful(steps, model, t, gains) && FailsFirst(steps, model, t, gains))
    ensures FirstUseful(steps, model, t, gains, better) ==>
              !NoneUseful(steps, model, t, gains) && !FailsFirst(steps, model, t, gains) &&
              forall other :: FirstUseful(steps, model, t, gains, other) ==> other == better
  {
    if NoneUseful(steps, model, t, gains) && FailsFirst(steps, model, t, gains) {
      var i :| 0 <= i < |steps| && !CanTry(model, t, gains, steps[i]);
      UselessIsDecided(model, t, gains, steps[i]);
    }
    if FirstUseful(steps, model, t, gains, better) {
      UsefulOrNot(steps, model, t, gains, better);
      forall other | FirstUseful(steps, model, t, gains, other)
        ensures other == better
      {
        FirstUsefulIsUnique(steps, model, t, gains, other, better);
      }
    }
  }

  // ----- The solver -----

  /** How a call ends: unsuccessfully (the first three) or not. */
  datatype Exit = NoInitialRollout | NoRollout | RegularizationLimit | SmallGradient | SmallChange | OutOfIterations

  /** What one iteration makes of a trajectory. */
  datatype Attempt = Stop(exit: Exit) | Rejected | Accepted(t: Trajectory)

  /** Largest relative feedforward term. */
  function GradientNorm(gains: seq<Gain>, u: seq<real>): real
    requires |gains| == |u|
  {
    if gains == [] then 0.0
    else Max(Abs(gains[0].k) / (Abs(u[0]) + 1.0), GradientNorm(gains[1..], u[1..]))
  }

  /** The gradient is small exactly if every feedforward term is small next to its control. */
  lemma {:induction false} GradientIsSmall(gains: seq<Gain>, u: seq<real>, tolerance: real)
    requires |gains| == |u| && tolerance > 0.0
    ensures GradientNorm(gains, u) < tolerance <==>
            forall i :: 0 <= i < |u| ==> Abs(gains[i].k) < Reals.Times(tolerance, Abs(u[i]) + 1.0)
  {
    if gains != [] {
      GradientIsSmall(gains[1..], u[1..], tolerance);
      QuotientBelow(Abs(gains[0].k), Abs(u[0]) + 1.0, tolerance);
      if forall i :: 0 <= i < |u| - 1 ==> Abs(gains[1..][i].k) < Reals.Times(tolerance, Abs(u[1..][i]) + 1.0) {
        forall i | 0 < i < |u|
          ensures Abs(gains[i].k) < Reals.Times(tolerance, Abs(u[i]) + 1.0)
        {
          assert gains[1..][i - 1] == gains[i] && u[1..][i - 1] == u[i];
        }
      }
    }
  }

  lemma QuotientBelow(a: real, n: real, bound: real)
    requires n > 0.0
    ensures a / n < bound <==> a < Reals.Times(bound, n)
  {
    var q := a / n;
    assert Reals.Times(q, n) == a;
    assert Reals.Times(bound, n) - Reals.Times(q, n) == (bound - q) * n;
  }

  function Abs(x: real): (r: real)
    ensures r >= 0.0
  {
    if x < 0.0 then -x else x
  }

  /** What is saved for the next call: controls, states, gains. */
  datatype Solution = Solution(u: seq<real>, x: seq<real>, L: seq<Gain>)

  /**
   The solution now is the trajectory at this index of the run, with the gains that led to it. Index 0 means that
   nothing has been saved since the run began.
   */
  ghost predicate Kept(start: Solution, now: Solution, ts: seq<Trajectory>, gs: seq<seq<Gain>>, k: int) {
    0 <= k < |ts| == |gs| + 1 &&
    now == if k == 0 then start else Solution(ts[k].u, ts[k].x, gs[k - 1])
  }

  /**
   One iteration: the trajectory and the damping it starts from, how many backward passes fail, the gains of the one
   that does not, what becomes of the trajectory, and the damping after that.
   */
  datatype Turn = Turn(t: Trajectory, start: Lambda, failures: nat, gains: seq<Gain>, outcome: Attempt, after: Lambda)

  /** The initial trajectory and the accepted ones. */
  function Trajectories(first: Trajectory, turns: seq<Turn>): (ts: seq<Trajectory>)
    ensures |ts| > 0
  {
    if turns == [] then [first]
    else
      var last := turns[|turns| - 1];
      Trajectories(first, turns[..|turns| - 1]) + if last.outcome.Accepted? then [last.outcome.t] else []
  }

  function Newest(first: Trajectory, turns: seq<Turn>): Trajectory {
    var ts := Trajectories(first, turns);
    ts[|ts| - 1]
  }

  /** The gains that led to the accepted trajectories. */
  function GainsOf(turns: seq<Turn>): seq<seq<Gain>> {
    if turns == [] then []
    else
      var last := turns[|turns| - 1];
      GainsOf(turns[..|turns| - 1]) + if last.outcome.Accepted? then [last.gains] else []
  }

  /** Only an accepted trajectory is added. */
  lemma AcceptedAreAdded(first: Trajectory, turns: seq<Turn>)
    requires turns != []
    ensures var last, before := turns[|turns| - 1], turns[..|turns| - 1];
            if last.outcome.Accepted?
            then Trajectories(first, turns) == Trajectories(first, before) + [last.outcome.t] &&
                 GainsOf(turns) == GainsOf(before) + [last.gains]
            else Trajectories(first, turns) == Trajectories(first, before) && GainsOf(turns) == GainsOf(before)
  {
    var before := turns[..|turns| - 1];
    assert Trajectories(first, before) + [] == Trajectories(first, before) && GainsOf(before) + [] == GainsOf(before);
  }

  lemma TimesAtMostOne(a: real, b: real)
    requires a >= 0.0 && b <= 1.0
    ensures Reals.Times(a, b) <= a && Reals.Times(0.0, a) == 0.0
  {
    Product(a, 1.0 - b);
    assert Reals.Times(a, 1.0 - b) == a - Reals.Times(a, b);
  }

  class ILQGSolver {
    const settings: Settings
    const model: Model
    /** Derivatives at a state and control, and at the end of the horizon. */
    const derive: (real, real) -> Stage
    const deriveEnd: real -> Value
    var u: seq<real>
    var x: seq<real>
    var L: seq<Gain>

    constructor (settings: Settings, model: Model, derive: (real, real) -> Stage, deriveEnd: real -> Value)
      ensures this.settings == settings && this.model == model
      ensures this.derive == derive && this.deriveEnd == deriveEnd && u == x == [] && L == []
    {
      this.settings, this.model, this.derive, this.deriveEnd := settings, model, derive, deriveEnd;
      u, x, L := [], [], [];
    }

    function Current(): Solution
      reads this
    {
      Solution(u, x, L)
    }

    function Derivatives(t: Trajectory): seq<Stage>
      requires |t.u| < |t.x|
    {
      seq(|t.u|, i requires 0 <= i < |t.u| => derive(t.x[i], t.u[i]))
    }

    // ----- One iteration -----

    /** The damping of the last backward pass. */
    function Damping(turn: Turn): Lambda {
      Raised(settings, turn.start, turn.failures)
    }

    /** The last backward pass succeeds, within the limit, and gives these gains. */
    ghost predicate Passed(turn: Turn)
      requires |turn.t.u| < |turn.t.x|
    {
      && WithinLimit(settings, turn.start, turn.failures) && |turn.gains| == |turn.t.u|
      && var p := Back(Derivatives(turn.t), deriveEnd(turn.t.x[|turn.t.u|]), Damping(turn).value, settings.mode);
         p.Some? && p.value.gains == turn.gains
    }

    /** The gradient is small and there is almost no damping. */
    predicate IsFlat(turn: Turn)
      requires |turn.gains| == |turn.t.u|
    {
      GradientNorm(turn.gains, turn.t.u) < settings.tolerance && Damping(turn).value < 0.00001
    }

    /** What the line search has found, and what follows from it. */
    ghost predicate Searched(turn: Turn)
      requires |turn.gains| == |turn.t.u| < |turn.t.x|
    {
      match turn.outcome
      case Accepted(better) =>
        FirstUseful(settings.steps, model, turn.t, turn.gains, better) && turn.after == Damping(turn)
      case Rejected =>
        && NoneUseful(settings.steps, model, turn.t, turn.gains)
        && turn.after == Increased(settings, Damping(turn)) && turn.after.value <= settings.lambdaMax
      case Stop(RegularizationLimit) =>
        && NoneUseful(settings.steps, model, turn.t, turn.gains)
        && turn.after == Increased(settings, Damping(turn)) && turn.after.value > settings.lambdaMax
      case Stop(NoRollout) =>
        FailsFirst(settings.steps, model, turn.t, turn.gains) && turn.after == Damping(turn)
      case Stop(_) => false
    }

    /** An iteration of the solver, with the reason for its outcome. */
    ghost predicate IsTurn(turn: Turn) {
      && |turn.t.u| < |turn.t.x|
      && Raises(settings, Derivatives(turn.t), deriveEnd(turn.t.x[|turn.t.u|]), turn.start, turn.failures)
      && if !WithinLimit(settings, turn.start, turn.failures)
         then turn.outcome == Stop(RegularizationLimit) && turn.after == Damping(turn)
         else Passed(turn) &&
              if IsFlat(turn) then turn.outcome == Stop(SmallGradient) && turn.after == Damping(turn) else Searched(turn)
    }

    /** Backward pass and line search from a rollout t, whose derivatives are given. */
    method Improve(t: Trajectory, stages: seq<Stage>, end: Value, start: Lambda)
      returns (r: Attempt, damping: Lambda, gains: seq<Gain>, ghost failures: nat)
      requires Usable(settings) && Positive(start) && |t.u| < |t.x|
      requires stages == Derivatives(t) && end == deriveEnd(t.x[|t.u|])
      ensures Positive(damping) && IsTurn(Turn(t, start, failures, gains, r, damping))
    {
      var ok, found, dV0, dV1;
      ok, damping, found, dV0, dV1, failures := BackwardUntilSuccess(settings, stages, end, start);
      gains := found[..];
      if !ok {
        return Stop(RegularizationLimit), damping, gains, failures;
      }
      GainsPerStage(stages, end, damping.value, settings.mode);
      if GradientNorm(gains, t.u) < settings.tolerance && damping.value < 0.00001 {
        return Stop(SmallGradient), damping, gains, failures;
      }
      var search := LineSearch(settings, model, t, gains, dV0, dV1, stages, end, damping.value);
      match search {
        case Failed =>
          r := Stop(NoRollout);
        case Found(better) =>
          r := Accepted(better);
        case NotFound =>
          IncreaseGrows(settings, damping);
          damping := Increased(settings, damping);
          r := if damping.value > settings.lambdaMax then Stop(RegularizationLimit) else Rejected;
      }
    }

    // ----- A run -----

    /** The accepted trajectory costs hardly less. */
    ghost predicate SmallDrop(turn: Turn)
      requires turn.outcome.Accepted?
    {
      TotalCost(turn.t) - TotalCost(turn.outcome.t) < settings.tolerance
    }

    ghost predicate GoesOn(turn: Turn) {
      turn.outcome.Rejected? || (turn.outcome.Accepted? && !SmallDrop(turn))
    }

    /** The trajectory and the damping that the next iteration starts from. */
    function NextTrajectory(turn: Turn): Trajectory {
      if turn.outcome.Accepted? then turn.outcome.t else turn.t
    }

    function NextDamping(turn: Turn): Lambda
      requires Usable(settings)
    {
      if turn.outcome.Accepted? then Decreased(settings, turn.after) else turn.after
    }

    ghost predicate Follows(turns: seq<Turn>, k: nat)
      requires Usable(settings)
    {
      && 0 < k < |turns| && GoesOn(turns[k - 1])
      && turns[k].t == NextTrajectory(turns[k - 1]) && turns[k].start == NextDamping(turns[k - 1])
    }

    /** Iterations from the initial trajectory, each one going on where the one before has ended. */
    ghost predicate Chained(first: Trajectory, turns: seq<Turn>)
      requires Usable(settings)
    {
      && (turns != [] ==> turns[0].t == first && turns[0].start == Lambda(1.0, 1.0))
      && (forall k :: 0 < k < |turns| ==> Follows(turns, k))
    }

    ghost predicate IsRun(first: Trajectory, turns: seq<Turn>)
      requires Usable(settings)
    {
      |turns| <= settings.maxIterations && Chained(first, turns) && forall k :: 0 <= k < |turns| ==> IsTurn(turns[k])
    }

    /** The next iteration starts from this trajectory and this damping. */
    ghost predicate ContinuesAt(first: Trajectory, turns: seq<Turn>, t: Trajectory, damping: Lambda)
      requires Usable(settings)
    {
      if turns == [] then t == first && damping == Lambda(1.0, 1.0)
      else
        var last := turns[|turns| - 1];
        GoesOn(last) && t == NextTrajectory(last) && damping == NextDamping(last)
    }

    /** Why the run ends after these iterations. */
    ghost function ExitOf(turns: seq<Turn>): Exit {
      if turns == [] then OutOfIterations
      else
        match turns[|turns| - 1].outcome
        case Stop(exit) => exit
        case Rejected => OutOfIterations
        case Accepted(_) => if SmallDrop(turns[|turns| - 1]) then SmallChange else OutOfIterations
    }

    /** The solution that is saved after these iterations. */
    ghost function Saved(start: Solution, turns: seq<Turn>): Solution {
      if turns == [] then start
      else
        var last := turns[|turns| - 1];
        if last.outcome.Accepted? && GoesOn(last) then Solution(last.outcome.t.u, last.outcome.t.x, last.gains)
        else Saved(start, turns[..|turns| - 1])
    }

    lemma ChainGoesOn(first: Trajectory, turns: seq<Turn>, turn: Turn)
      requires Usable(settings) && Chained(first, turns) && ContinuesAt(first, turns, turn.t, turn.start)
      ensures Chained(first, turns + [turn])
    {
      var more := turns + [turn];
      forall k | 0 < k < |more|
        ensures Follows(more, k)
      {
        assert k < |turns| ==> Follows(turns, k);
      }
    }

    /** One more iteration. */
    lemma RunGoesOn(first: Trajectory, turns: seq<Turn>, turn: Turn)
      requires Usable(settings) && IsRun(first, turns) && |turns| < settings.maxIterations
      requires IsTurn(turn) && ContinuesAt(first, turns, turn.t, turn.start)
      ensures IsRun(first, turns + [turn])
      ensures GoesOn(turn) ==> ContinuesAt(first, turns + [turn], NextTrajectory(turn), NextDamping(turn))
    {
      ChainGoesOn(first, turns, turn);
    }

    lemma SavedNext(start: Solution, turns: seq<Turn>, turn: Turn)
      ensures Saved(start, turns + [turn]) ==
              if turn.outcome.Accepted? && GoesOn(turn) then Solution(turn.outcome.t.u, turn.outcome.t.x, turn.gains)
              else Saved(start, turns)
    {
      assert (turns + [turn])[..|turns|] == turns;
    }

    /** The accepted part of an iteration: stop, or save the trajectory and lower the regularization. */
    method Accept(t: Trajectory, better: Trajectory, gains: seq<Gain>, start: Lambda)
      returns (converged: bool, damping: Lambda)
      requires Usable(settings) && Positive(start)
      modifies this
      ensures converged <==> TotalCost(t) - TotalCost(better) < settings.tolerance
      ensures Current() == if converged then old(Current()) else Solution(better.u, better.x, gains)
      ensures damping == if converged then start else Decreased(settings, start)
    {
      damping := start;
      converged := TotalCost(t) - TotalCost(better) < settings.tolerance;
      if !converged {
        damping := Decreased(settings, damping);
        x, u, L := better.x, better.u, gains;
      }
    }

    /** The iterations from an initial rollout. */
    method Iterate(first: Trajectory) returns (exit: Exit, ghost turns: seq<Turn>)
      requires Usable(settings) && |first.u| < |first.x|
      modifies this
      ensures IsRun(first, turns) && exit == ExitOf(turns)
      ensures exit.OutOfIterations? ==> |turns| == settings.maxIterations
      ensures Current() == Saved(old(Current()), turns)
    {
      var t := first;
      var stages, end := [], Value(0.0, 0.0);
      var damping := Lambda(1.0, 1.0);
      var accepted := true;
      turns := [];
      for iteration := 0 to settings.maxIterations
        invariant |turns| == iteration && IsRun(first, turns) && Positive(damping) && |t.u| < |t.x|
        invariant ContinuesAt(first, turns, t, damping)
        invariant accepted || (stages == Derivatives(t) && end == deriveEnd(t.x[|t.u|]))
        invariant Current() == Saved(old(Current()), turns)
      {
        if accepted {
          stages := Derivatives(t);
          end := deriveEnd(t.x[|t.u|]);
          accepted := false;
        }
        ghost var start := damping;
        var attempt, gains;
        ghost var failures;
        attempt, damping, gains, failures := Improve(t, stages, end, damping);
        ghost var turn := Turn(t, start, failures, gains, attempt, damping);
        RunGoesOn(first, turns, turn);
        SavedNext(old(Current()), turns, turn);
        turns := turns + [turn];
        match attempt {
          case Stop(reason) =>
            return reason, turns;
          case Rejected =>
          case Accepted(better) =>
            var converged;
            accepted := true;
            DecreaseKeeps(settings, damping);
            converged, damping := Accept(t, better, gains, damping);
            if converged {
              return SmallChange, turns;
            }
            t := better;
        }
      }
      return OutOfIterations, turns;
    }

    // ----- What a run does -----

    /** The gains come from a successful backward pass along the trajectory. */
    ghost predicate GainsFor(t: Trajectory, gains: seq<Gain>) {
      |t.u| < |t.x| && exists damping, p: Pass ::
        damping >= 0.0 && Back(Derivatives(t), deriveEnd(t.x[|t.u|]), damping, settings.mode) == Some(p) && p.gains == gains
    }

    /** Gains from a backward pass, and the first step of the line search that lowers the cost. */
    ghost predicate Improvement(t: Trajectory, gains: seq<Gain>, better: Trajectory) {
      GainsFor(t, gains) && |gains| == |t.u| && FirstUseful(settings.steps, model, t, gains, better)
    }

    ghost predicate Improves(ts: seq<Trajectory>, gs: seq<seq<Gain>>, k: nat) {
      k < |gs| && k + 1 < |ts| && Improvement(ts[k], gs[k], ts[k + 1])
    }

    /**
     The first trajectory is the rollout of the saved solution from xt, all are rollouts, and each one improves the one
     before with the gains between them.
     */
    ghost predicate Improving(xt: real, start: Solution, ts: seq<Trajectory>, gs: seq<seq<Gain>>)
      requires |start.L| <= |start.x|
    {
      && |ts| == |gs| + 1 && Tracks(ts[0], start.x, start.u, start.L, |start.u|)
      && (forall k :: 0 <= k < |ts| ==> IsRollout(model, xt, |start.u|, ts[k]))
      && (forall k :: 0 <= k < |gs| ==> Improves(ts, gs, k))
    }

    lemma ImprovingGoesOn(xt: real, start: Solution, ts: seq<Trajectory>, gs: seq<seq<Gain>>, gains: seq<Gain>,
                          better: Trajectory)
      requires |start.L| <= |start.x| && Improving(xt, start, ts, gs)
      requires Improvement(ts[|ts| - 1], gains, better) && IsRollout(model, xt, |start.u|, better)
      ensures Improving(xt, start, ts + [better], gs + [gains])
    {
      forall k | 0 <= k < |gs + [gains]|
        ensures Improves(ts + [better], gs + [gains], k)
      {
        if k < |gs| {
          assert Improves(ts, gs, k);
        }
      }
    }

    /** The total cost strictly decreases over the accepted trajectories. */
    lemma {:induction false} CostsDecrease(xt: real, start: Solution, ts: seq<Trajectory>, gs: seq<seq<Gain>>, i: nat, j: nat)
      requires |start.L| <= |start.x| && Improving(xt, start, ts, gs) && i < j < |ts|
      ensures TotalCost(ts[j]) < TotalCost(ts[i])
      decreases j
    {
      assert Improves(ts, gs, j - 1);
      if i < j - 1 {
        CostsDecrease(xt, start, ts, gs, i, j - 1);
      }
    }

    /** The last improvement is below the tolerance. */
    ghost predicate SmallStep(ts: seq<Trajectory>) {
      |ts| > 1 && TotalCost(ts[|ts| - 2]) - TotalCost(ts[|ts| - 1]) < settings.tolerance
    }

    lemma ShorterChain(first: Trajectory, turns: seq<Turn>)
      requires Usable(settings) && Chained(first, turns) && turns != []
      ensures Chained(first, turns[..|turns| - 1])
    {
      var before := turns[..|turns| - 1];
      forall k | 0 < k < |before|
        ensures Follows(before, k)
      {
        assert Follows(turns, k);
      }
    }

    lemma ShorterRun(first: Trajectory, turns: seq<Turn>)
      requires Usable(settings) && IsRun(first, turns) && turns != []
      ensures IsRun(first, turns[..|turns| - 1])
    {
      ShorterChain(first, turns);
    }

    lemma {:induction false} RaisedIsPositive(l: Lambda, n: nat)
      requires Usable(settings) && Positive(l)
      ensures Positive(Raised(settings, l, n))
    {
      if n > 0 {
        RaisedIsPositive(l, n - 1);
        IncreaseGrows(settings, Raised(settings, l, n - 1));
      }
    }

    lemma TurnKeepsDamping(turn: Turn)
      requires Usable(settings) && IsTurn(turn) && Positive(turn.start)
      ensures Positive(Damping(turn)) && Positive(turn.after) && Positive(NextDamping(turn))
    {
      RaisedIsPositive(turn.start, turn.failures);
      IncreaseGrows(settings, Damping(turn));
      DecreaseKeeps(settings, turn.after);
    }

    lemma TurnImproves(turn: Turn)
      requires Usable(settings) && IsTurn(turn) && Positive(turn.start) && turn.outcome.Accepted?
      ensures Improvement(turn.t, turn.gains, turn.outcome.t)
      ensures IsRollout(model, turn.t.x[0], |turn.t.u|, turn.outcome.t)
    {
      TurnKeepsDamping(turn);
    }

    /** Every iteration is about the newest trajectory. */
    lemma {:induction false} NewestIsNext(first: Trajectory, turns: seq<Turn>)
      requires Usable(settings) && Chained(first, turns) && turns != []
      ensures turns[|turns| - 1].t == Newest(first, turns[..|turns| - 1])
      ensures NextTrajectory(turns[|turns| - 1]) == Newest(first, turns)
    {
      var before := turns[..|turns| - 1];
      AcceptedAreAdded(first, turns);
      if before != [] {
        ShorterChain(first, turns);
        NewestIsNext(first, before);
        assert Follows(turns, |turns| - 1);
      }
    }

    lemma {:induction false} DampingIsPositive(first: Trajectory, turns: seq<Turn>, k: nat)
      requires Usable(settings) && IsRun(first, turns) && k < |turns|
      ensures Positive(turns[k].start)
    {
      if k > 0 {
        DampingIsPositive(first, turns, k - 1);
        TurnKeepsDamping(turns[k - 1]);
        assert Follows(turns, k);
      }
    }

    /**
     After an accepted iteration the damping is at most what it was, divided by the factor; after a rejected one it is
     at least the minimum, and more by a fixed amount.
     */
    lemma DampingAdapts(first: Trajectory, turns: seq<Turn>, k: nat)
      requires Usable(settings) && IsRun(first, turns) && 0 < k < |turns|
      ensures var before, now := Damping(turns[k - 1]).value, turns[k].start.value;
              if turns[k - 1].outcome.Accepted? then Reals.Times(now, settings.factor) <= before
              else now >= settings.lambdaMin && (before >= settings.lambdaMin ==> now >= before + Least(settings))
    {
      var last := turns[k - 1];
      DampingIsPositive(first, turns, k - 1);
      TurnKeepsDamping(last);
      assert Follows(turns, k) && IsTurn(last);
      if last.outcome.Accepted? {
        RateFalls(settings, last.after);
        TimesAtMostOne(last.after.value, Min(last.after.rate, 1.0));
      } else {
        IncreaseGrows(settings, Damping(last));
      }
    }

    /** The accepted trajectories of a run improve one another. */
    lemma {:induction false} RunImproves(xt: real, start: Solution, first: Trajectory, turns: seq<Turn>)
      requires Usable(settings) && IsRun(first, turns) && |start.L| <= |start.x|
      requires IsRollout(model, xt, |start.u|, first) && Tracks(first, start.x, start.u, start.L, |start.u|)
      ensures Improving(xt, start, Trajectories(first, turns), GainsOf(turns))
    {
      if turns != [] {
        var k := |turns| - 1;
        ShorterRun(first, turns);
        RunImproves(xt, start, first, turns[..k]);
        AcceptedAreAdded(first, turns);
        if turns[k].outcome.Accepted? {
          NewestIsNext(first, turns);
          DampingIsPositive(first, turns, k);
          TurnImproves(turns[k]);
          ImprovingGoesOn(xt, start, Trajectories(first, turns[..k]), GainsOf(turns[..k]), turns[k].gains,
                          turns[k].outcome.t);
        }
      }
    }

    lemma NoStopBySmallChange(turn: Turn)
      requires IsTurn(turn)
      ensures turn.outcome != Stop(SmallChange)
    {
    }

    lemma StepIsDrop(first: Trajectory, turns: seq<Turn>)
      requires Usable(settings) && Chained(first, turns) && turns != [] && turns[|turns| - 1].outcome.Accepted?
      ensures SmallDrop(turns[|turns| - 1]) <==> SmallStep(Trajectories(first, turns))
    {
      NewestIsNext(first, turns);
      AcceptedAreAdded(first, turns);
    }

    lemma EndIsSmallChange(first: Trajectory, turns: seq<Turn>)
      requires Usable(settings) && IsRun(first, turns) && turns != []
      ensures var k := |turns| - 1;
              && (ExitOf(turns).SmallChange? <==> turns[k].outcome.Accepted? && SmallDrop(turns[k]))
              && !ExitOf(turns[..k]).SmallChange?
              && (turns[k].outcome.Accepted? ==> (SmallDrop(turns[k]) <==> SmallStep(Trajectories(first, turns))))
    {
      var k := |turns| - 1;
      NoStopBySmallChange(turns[k]);
      if k > 0 {
        assert Follows(turns, k);
      }
      if turns[k].outcome.Accepted? {
        StepIsDrop(first, turns);
      }
    }

    /** The saved solution is the one of the newest trajectory, or the one before it if that is hardly better. */
    ghost predicate WellKept(start: Solution, now: Solution, ts: seq<Trajectory>, gs: seq<seq<Gain>>, small: bool) {
      Kept(start, now, ts, gs, if small then |ts| - 2 else |ts| - 1) && (small <==> SmallStep(ts))
    }

    lemma KeptLonger(start: Solution, ts: seq<Trajectory>, gs: seq<seq<Gain>>, now: Solution, t: Trajectory, gains: seq<Gain>)
      requires Kept(start, now, ts, gs, |ts| - 1)
      ensures Kept(start, now, ts + [t], gs + [gains], |ts| - 1)
      ensures Kept(start, Solution(t.u, t.x, gains), ts + [t], gs + [gains], |ts|)
    {
    }

    /**
     The last accepted trajectory is the saved one, unless the run ends by a small change: then it is the one before.
     And it ends so exactly if the last improvement is below the tolerance.
     */
    lemma {:induction false} RunIsKept(start: Solution, first: Trajectory, turns: seq<Turn>)
      requires Usable(settings) && IsRun(first, turns)
      ensures WellKept(start, Saved(start, turns), Trajectories(first, turns), GainsOf(turns), ExitOf(turns).SmallChange?)
    {
      if turns != [] {
        var last, before := turns[|turns| - 1], turns[..|turns| - 1];
        ShorterRun(first, turns);
        RunIsKept(start, first, before);
        EndIsSmallChange(first, turns);
        AcceptedAreAdded(first, turns);
        if last.outcome.Accepted? {
          KeptLonger(start, Trajectories(first, before), GainsOf(before), Saved(start, before), last.outcome.t, last.gains);
        }
      }
    }

    /**
     Why an iteration accepts nothing, and why a run ends: no step lowers the cost, the backward passes fail up to the
     limit, the gradient is small, or the model fails for a step before any that lowers the cost.
     */
    lemma EndsForAReason(first: Trajectory, turns: seq<Turn>, k: nat)
      requires Usable(settings) && IsRun(first, turns) && k < |turns| && !turns[k].outcome.Accepted?
      ensures |turns[k].t.u| < |turns[k].t.x|
      ensures turns[k].outcome.Rejected? ==> Passed(turns[k]) && NoneUseful(settings.steps, model, turns[k].t, turns[k].gains)
      ensures turns[k].outcome.Stop? ==> k == |turns| - 1 && ExitOf(turns) == turns[k].outcome.exit
      ensures turns[k].outcome == Stop(RegularizationLimit) ==>
                && turns[k].after.value > settings.lambdaMax
                && (turns[k].failures > 0 ||
                    (Passed(turns[k]) && NoneUseful(settings.steps, model, turns[k].t, turns[k].gains)))
      ensures turns[k].outcome == Stop(SmallGradient) ==> Passed(turns[k]) && IsFlat(turns[k])
      ensures turns[k].outcome == Stop(NoRollout) ==>
                Passed(turns[k]) && FailsFirst(settings.steps, model, turns[k].t, turns[k].gains)
    {
      assert IsTurn(turns[k]);
      assert k < |turns| - 1 ==> Follows(turns, k + 1);
    }

    /**
     resolve, from a saved control sequence: the rollout of the saved solution, and a run of iterations from it. The last
     accepted trajectory is saved for the next call, or the one before it exactly if they hardly differ in cost.
     */
    method Resolve(xt: real) returns (exit: Exit, ghost first: Trajectory, ghost turns: seq<Turn>)
      requires Usable(settings) && |u| > 0 && |L| <= |x|
      modifies this
      ensures exit.NoInitialRollout? <==> !old(Completes(model, x, u, L, 0, xt))
      ensures exit.NoInitialRollout? ==> Current() == old(Current()).(u := [])
      ensures !exit.NoInitialRollout? ==>
                && IsRollout(model, xt, old(|u|), first) && Tracks(first, old(x), old(u), old(L), old(|u|))
                && IsRun(first, turns) && exit == ExitOf(turns) && Current() == Saved(old(Current()), turns)
      ensures exit.OutOfIterations? ==> |turns| == settings.maxIterations
      ensures !exit.NoInitialRollout? ==>
                var ts := Trajectories(first, turns);
                && Improving(xt, old(Current()), ts, GainsOf(turns))
                && WellKept(old(Current()), Current(), ts, GainsOf(turns), exit.SmallChange?)
    {
      first, turns := Trajectory([], [], []), [];
      var rollout := ForwardPass(model, xt, x, u, L);
      if rollout.None? {
        u := [];
        return NoInitialRollout, first, turns;
      }
      first := rollout.value;
      exit, turns := Iterate(rollout.value);
      RunImproves(xt, old(Current()), first, turns);
      RunIsKept(old(Current()), first, turns);
    }
  }
}
