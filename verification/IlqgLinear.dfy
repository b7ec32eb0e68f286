/**
 Iterative LQG on a model with linear dynamics and quadratic costs (addons/lqr/src/ilqg.cpp): there the rollouts of the
 line search cost what the backward pass expects, so a full step lowers the cost unless nothing is left to gain.
 */
module IlqgLinear {
  import opened Options
  import opened IlqgSpec
  import opened Ilqg
  import Reals

  /** In a trial the controls differ from the old ones by the step along the gains, with feedback on the state. */
  lemma TrialControls(model: Model, t: Trajectory, gains: seq<Gain>, alpha: real, trial: Trajectory, i: nat)
    requires |gains| == |t.u| < |t.x| && IsTrial(model, t, gains, alpha, trial) && i < |t.u|
    ensures i < |trial.u| && i < |trial.x|
    ensures trial.u[i] - t.u[i] == Control(gains[i], alpha, trial.x[i] - t.x[i])
  {
  }

  /** next = a x + b u + c, and the cost of a step is a quadratic in x and u. */
  datatype Problem = Problem(a: real, b: real, c: real, cx: real, cu: real, cxx: real, cxu: real, cuu: real) {
    function Next(x: real, u: real): real {
      a * x + b * u + c
    }

    function Cost(x: real, u: real): real {
      Poly(cx, cu, cxx, cxu, cuu, x, u)
    }

    /** The derivatives of dynamics and cost at a state and control. */
    function Derivatives(x: real, u: real): Stage {
      Stage(a, b, cx + cxx * x + cxu * u, cu + cxu * x + cuu * u, cxx, cxu, cuu)
    }
  }

  ghost predicate Models(model: Model, p: Problem) {
    forall x, u :: model(x, u) == Some(Transition(p.Next(x, u), -p.Cost(x, u)))
  }

  function Stages(p: Problem, t: Trajectory): seq<Stage>
    requires |t.u| < |t.x|
  {
    seq(|t.u|, i requires 0 <= i < |t.u| => p.Derivatives(t.x[i], t.u[i]))
  }

  /** There is no final cost. */
  const END: IlqgSpec.Value := Value(0.0, 0.0)

  lemma StepMoves(p: Problem, x: real, u: real, dx: real, du: real)
    ensures p.Next(x + dx, u + du) - p.Next(x, u) == Moved(p.Derivatives(x, u), dx, du)
    ensures p.Cost(x + dx, u + du) - p.Cost(x, u) == StageCost(p.Derivatives(x, u), dx, du)
  {
    StepCosts(p, x, u, dx, du);
  }

  lemma StepCosts(p: Problem, x: real, u: real, dx: real, du: real)
    ensures p.Cost(x + dx, u + du) - p.Cost(x, u) == StageCost(p.Derivatives(x, u), dx, du)
  {
  }

  lemma StepOf(model: Model, p: Problem, t: Trajectory, n: nat, i: nat)
    requires Models(model, p) && FitsModel(model, t, n) && i < n
    ensures t.x[i + 1] == p.Next(t.x[i], t.u[i]) && t.cost[i] == p.Cost(t.x[i], t.u[i])
  {
    assert model(t.x[i], t.u[i]) == Some(Transition(t.x[i + 1], -t.cost[i]));
  }

  /** One step of both trajectories. */
  lemma BothStep(model: Model, p: Problem, t: Trajectory, gains: seq<Gain>, alpha: real, trial: Trajectory, i: nat)
    requires Models(model, p) && |gains| == |t.u| < |t.x| && IsRollout(model, t.x[0], |t.u|, t)
    requires IsTrial(model, t, gains, alpha, trial) && i < |t.u|
    ensures var dx := trial.x[i] - t.x[i];
            var du := Control(gains[i], alpha, dx);
            && trial.x[i + 1] - t.x[i + 1] == Moved(Stages(p, t)[i], dx, du)
            && trial.cost[i] - t.cost[i] == StageCost(Stages(p, t)[i], dx, du)
  {
    StepOf(model, p, t, |t.u|, i);
    StepOf(model, p, trial, |t.u|, i);
    TrialControls(model, t, gains, alpha, trial, i);
    StepMoves(p, t.x[i], t.u[i], trial.x[i] - t.x[i], trial.u[i] - t.u[i]);
  }

  lemma {:induction false} CostFrom(model: Model, p: Problem, t: Trajectory, gains: seq<Gain>, alpha: real, trial: Trajectory,
                                    i: nat)
    requires Models(model, p) && |gains| == |t.u| < |t.x| && IsRollout(model, t.x[0], |t.u|, t)
    requires IsTrial(model, t, gains, alpha, trial) && i <= |t.u|
    ensures Reals.Sum(trial.cost[i..]) - Reals.Sum(t.cost[i..]) ==
            ModelCost(Stages(p, t)[i..], END, gains[i..], alpha, trial.x[i] - t.x[i])
    decreases |t.u| - i
  {
    var n, stages := |t.u|, Stages(p, t);
    if i == n {
      assert trial.cost[n..] == [0.0] == t.cost[n..];
      assert stages[n..] == [];
    } else {
      BothStep(model, p, t, gains, alpha, trial, i);
      CostFrom(model, p, t, gains, alpha, trial, i + 1);
      assert stages[i..][0] == stages[i] && stages[i..][1..] == stages[i + 1..];
      assert gains[i..][0] == gains[i] && gains[i..][1..] == gains[i + 1..];
      assert trial.cost[i..][1..] == trial.cost[i + 1..] && t.cost[i..][1..] == t.cost[i + 1..];
    }
  }

  /** The cost of a trial is the modelled one. */
  lemma TrialCostIsModelled(model: Model, p: Problem, t: Trajectory, gains: seq<Gain>, alpha: real, trial: Trajectory)
    requires Models(model, p) && |gains| == |t.u| < |t.x| && IsRollout(model, t.x[0], |t.u|, t)
    requires IsTrial(model, t, gains, alpha, trial)
    ensures TotalCost(trial) - TotalCost(t) == ModelCost(Stages(p, t), END, gains, alpha, 0.0)
  {
    CostFrom(model, p, t, gains, alpha, trial, 0);
    assert trial.cost[0..] == trial.cost && t.cost[0..] == t.cost;
    assert Stages(p, t)[0..] == Stages(p, t) && gains[0..] == gains;
  }

  /**
   A full step, or without regularization any step, along the gains of the backward pass changes the total cost by what
   is expected, and lowers it unless the gradient is zero everywhere.
   */
  lemma ExpectedIsExact(model: Model, p: Problem, t: Trajectory, damping: real, mode: Regularization, alpha: real,
                        trial: Trajectory)
    requires Models(model, p) && |t.u| < |t.x| && IsRollout(model, t.x[0], |t.u|, t)
    requires damping >= 0.0 && Back(Stages(p, t), END, damping, mode).Some?
    requires alpha == 1.0 || (0.0 < alpha < 1.0 && (damping == 0.0 || mode == NoRegularization))
    requires |Back(Stages(p, t), END, damping, mode).value.gains| == |t.u|
    requires IsTrial(model, t, Back(Stages(p, t), END, damping, mode).value.gains, alpha, trial)
    ensures var pass := Back(Stages(p, t), END, damping, mode).value;
            && TotalCost(t) - TotalCost(trial) == Expected(pass, alpha)
            && (if NoChange(pass.gains) then TotalCost(trial) == TotalCost(t) else TotalCost(trial) < TotalCost(t))
  {
    var stages := Stages(p, t);
    var pass := Back(stages, END, damping, mode).value;
    TrialCostIsModelled(model, p, t, pass.gains, alpha, trial);
    ModelCostIsExpected(stages, END, damping, mode, alpha, 0.0);
    NothingToGo(pass.value);
    ExpectedIsPositive(stages, END, damping, mode, alpha);
  }

  lemma NothingToGo(v: IlqgSpec.Value)
    ensures ToGo(v, 0.0) == 0.0
  {
  }

  /** So on such a model the line search finds a step unless there is no gradient. */
  lemma FullStepIsUseful(model: Model, p: Problem, t: Trajectory, damping: real, mode: Regularization, steps: seq<real>)
    requires Models(model, p) && |t.u| < |t.x| && IsRollout(model, t.x[0], |t.u|, t)
    requires damping >= 0.0 && Back(Stages(p, t), END, damping, mode).Some? && |steps| > 0 && steps[0] == 1.0
    requires |Back(Stages(p, t), END, damping, mode).value.gains| == |t.u|
    requires !NoChange(Back(Stages(p, t), END, damping, mode).value.gains)
    ensures !NoneUseful(steps, model, t, Back(Stages(p, t), END, damping, mode).value.gains)
  {
    var gains := Back(Stages(p, t), END, damping, mode).value.gains;
    if NoneUseful(steps, model, t, gains) {
      assert Useless(model, t, gains, steps[0]);
      var trial :| IsTrial(model, t, gains, 1.0, trial) && TotalCost(trial) >= TotalCost(t);
      ExpectedIsExact(model, p, t, damping, mode, 1.0, trial);
    }
  }
}
