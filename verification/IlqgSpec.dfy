/**
 The backward pass of iterative LQG (addons/lqr/src/ilqg.cpp, backwardPass) for one state and one control: local
 quadratic models, feedback gains, and the meaning of the expected cost reduction.
 */
module IlqgSpec {
  import opened Options
  import Reals

  datatype Regularization = NoRegularization | OnState | OnControls

  /** Derivatives of dynamics and cost at one step of the trajectory. */
  datatype Stage = Stage(fx: real, fu: real, cx: real, cu: real, cxx: real, cxu: real, cuu: real)

  /** Derivatives of the cost-to-go. */
  datatype Value = Value(vx: real, vxx: real)

  /** Derivatives of cost plus cost-to-go, and the regularized ones the gains are computed from. */
  datatype Quadratic = Quadratic(qx: real, qu: real, qxx: real, qux: real, quu: real, quxReg: real, quuF: real)

  /** Feedforward change of the control, and feedback on the state. */
  datatype Gain = Gain(k: real, K: real)

  datatype Pass = Pass(value: Value, dV0: real, dV1: real, gains: seq<Gain>)

  /** Derivatives at one step; `damping` is the regularization parameter lambda of the source. */
  function Sandwich(a: real, m: real, b: real): real {
    a * m * b
  }

  function Expand(s: Stage, v: Value, damping: real, mode: Regularization): Quadratic {
    var vxxReg := v.vxx + if mode == OnState then damping else 0.0;
    Quadratic(s.cx + s.fx * v.vx,
              s.cu + s.fu * v.vx,
              s.cxx + Sandwich(s.fx, v.vxx, s.fx),
              s.cxu + Sandwich(s.fu, v.vxx, s.fx),
              s.cuu + Sandwich(s.fu, v.vxx, s.fu),
              s.cxu + Sandwich(s.fu, vxxReg, s.fx),
              s.cuu + Sandwich(s.fu, vxxReg, s.fu) + if mode == OnControls then damping else 0.0)
  }

  function GainOf(q: Quadratic): Gain
    requires q.quuF > 0.0
  {
    Gain(-q.qu / q.quuF, -q.quxReg / q.quuF)
  }

  function ValueOf(q: Quadratic, g: Gain): Value {
    Value(q.qx + g.K * q.quu * g.k + g.K * q.qu + q.qux * g.k,
          q.qxx + g.K * q.quu * g.K + g.K * q.qux + q.qux * g.K)
  }

  function Linear(q: Quadratic, g: Gain): real {
    g.k * q.qu
  }

  function Curved(q: Quadratic, g: Gain): real {
    0.5 * (g.k * q.quu * g.k)
  }

  /** backwardPass; None if a Cholesky decomposition fails. */
  function Back(stages: seq<Stage>, end: Value, damping: real, mode: Regularization): Option<Pass> {
    if stages == [] then Some(Pass(end, 0.0, 0.0, []))
    else
      match Back(stages[1..], end, damping, mode)
      case None => None
      case Some(later) =>
        var q := Expand(stages[0], later.value, damping, mode);
        if q.quuF <= 0.0 then None
        else
          var g := GainOf(q);
          Some(Pass(ValueOf(q, g), later.dV0 + Linear(q, g), later.dV1 + Curved(q, g), [g] + later.gains))
  }

  // ----- The expected reduction is positive -----

  /** Change of the modelled cost per unit of step, for a step alpha. */
  function Slope(linear: real, curved: real, alpha: real): real {
    linear + alpha * curved
  }

  function Change(linear: real, curved: real, alpha: real): real {
    alpha * Slope(linear, curved, alpha)
  }

  function Expected(p: Pass, alpha: real): real {
    -Change(p.dV0, p.dV1, alpha)
  }

  predicate NoChange(gains: seq<Gain>) {
    gains == [] || (gains[0].k == 0.0 && NoChange(gains[1..]))
  }

  lemma SandwichGrows(a: real, m: real, damping: real)
    requires damping >= 0.0
    ensures Sandwich(a, m + damping, a) >= Sandwich(a, m, a)
  {
    assert a * (m + damping) * a == a * m * a + damping * (a * a);
    assert a * a >= 0.0;
    assert damping * (a * a) >= 0.0;
  }

  lemma Regularized(s: Stage, v: Value, damping: real, mode: Regularization)
    requires damping >= 0.0
    ensures Expand(s, v, damping, mode).quuF >= Expand(s, v, damping, mode).quu
    ensures mode == NoRegularization || damping == 0.0 ==>
              var q := Expand(s, v, damping, mode); q.quuF == q.quu && q.quxReg == q.qux
  {
    SandwichGrows(s.fu, v.vxx, damping);
  }

  lemma HalfBound(quu: real, quuF: real, alpha: real)
    requires quuF > 0.0 && quu <= quuF && 0.0 < alpha <= 1.0
    ensures quuF - 0.5 * alpha * quu >= 0.5 * quuF
  {
    if quu > 0.0 {
      assert (1.0 - alpha) * quu >= 0.0;
    } else {
      assert alpha * -quu >= 0.0;
    }
  }

  /** One step never expects an increase, and expects a decrease unless the gradient vanishes. */
  lemma StepDecreases(q: Quadratic, alpha: real)
    requires q.quuF > 0.0 && q.quu <= q.quuF && 0.0 < alpha <= 1.0
    ensures var g := GainOf(q);
            && (g.k == 0.0 <==> q.qu == 0.0)
            && (g.k == 0.0 ==> Linear(q, g) == 0.0 && Curved(q, g) == 0.0)
            && (g.k == 0.0 ==> Slope(Linear(q, g), Curved(q, g), alpha) == 0.0)
            && (g.k != 0.0 ==> Slope(Linear(q, g), Curved(q, g), alpha) < 0.0)
  {
    var g := GainOf(q);
    var bound := q.quuF - 0.5 * alpha * q.quu;
    HalfBound(q.quu, q.quuF, alpha);
    assert q.qu == -(g.k * q.quuF);
    StepIdentity(g.k, q.quu, q.quuF, alpha);
    if g.k != 0.0 {
      assert g.k * g.k > 0.0;
      assert g.k * g.k * bound > 0.0;
    }
  }

  lemma StepIdentity(k: real, quu: real, quuF: real, alpha: real)
    ensures k * -(k * quuF) + alpha * (0.5 * (k * quu * k)) == -(k * k * (quuF - 0.5 * alpha * quu))
  {
  }

  lemma SlopesAdd(a: real, b: real, c: real, d: real, alpha: real)
    ensures Slope(a + b, c + d, alpha) == Slope(a, c, alpha) + Slope(b, d, alpha)
  {
  }

  /** The sum of all steps. */
  lemma {:induction false} SlopeOverHorizon(stages: seq<Stage>, end: Value, damping: real, mode: Regularization, alpha: real)
    requires damping >= 0.0 && 0.0 < alpha <= 1.0 && Back(stages, end, damping, mode).Some?
    ensures var p := Back(stages, end, damping, mode).value;
            if NoChange(p.gains) then Slope(p.dV0, p.dV1, alpha) == 0.0 else Slope(p.dV0, p.dV1, alpha) < 0.0
  {
    if stages != [] {
      SlopeOverHorizon(stages[1..], end, damping, mode, alpha);
      var later := Back(stages[1..], end, damping, mode).value;
      var q := Expand(stages[0], later.value, damping, mode);
      var g := GainOf(q);
      Regularized(stages[0], later.value, damping, mode);
      StepDecreases(q, alpha);
      assert ([g] + later.gains)[1..] == later.gains;
      SlopesAdd(later.dV0, Linear(q, g), later.dV1, Curved(q, g), alpha);
    }
  }

  /**
   For every horizon, regularization, damping >= 0 and step in (0, 1], a successful backward pass expects a reduction
   that is positive exactly if the feedforward terms, and so the gradients Qu, are not all zero.
   */
  lemma ExpectedIsPositive(stages: seq<Stage>, end: Value, damping: real, mode: Regularization, alpha: real)
    requires damping >= 0.0 && 0.0 < alpha <= 1.0 && Back(stages, end, damping, mode).Some?
    ensures var p := Back(stages, end, damping, mode).value;
            if NoChange(p.gains) then Expected(p, alpha) == 0.0 else Expected(p, alpha) > 0.0
  {
    SlopeOverHorizon(stages, end, damping, mode, alpha);
    var p := Back(stages, end, damping, mode).value;
    NegativeProduct(alpha, Slope(p.dV0, p.dV1, alpha));
  }

  lemma NegativeProduct(alpha: real, d: real)
    requires alpha > 0.0
    ensures d < 0.0 ==> alpha * d < 0.0
    ensures d == 0.0 ==> alpha * d == 0.0
  {
  }

  // ----- What the expected reduction means -----

  /** A quadratic in x and y from its derivatives. */
  function Poly(a: real, b: real, c: real, d: real, e: real, x: real, y: real): real {
    a * x + b * y + 0.5 * (c * x * x + 2.0 * d * x * y + e * y * y)
  }

  function StageCost(s: Stage, dx: real, du: real): real {
    Poly(s.cx, s.cu, s.cxx, s.cxu, s.cuu, dx, du)
  }

  function ToGo(v: Value, dx: real): real {
    v.vx * dx + 0.5 * (v.vxx * dx * dx)
  }

  function Control(g: Gain, alpha: real, dx: real): real {
    alpha * g.k + g.K * dx
  }

  function Moved(s: Stage, dx: real, du: real): real {
    s.fx * dx + s.fu * du
  }

  /**
   Modelled change of the total cost when the controls change by alpha * k + K * dx at every step, where the state
   differs by dx at the first one.
   */
  function ModelCost(stages: seq<Stage>, end: Value, gains: seq<Gain>, alpha: real, dx: real): real
    requires |gains| == |stages|
  {
    if stages == [] then ToGo(end, dx)
    else
      var du := Control(gains[0], alpha, dx);
      StageCost(stages[0], dx, du) + ModelCost(stages[1..], end, gains[1..], alpha, Moved(stages[0], dx, du))
  }

  function QuadraticCost(q: Quadratic, dx: real, du: real): real {
    Poly(q.qx, q.qu, q.qxx, q.qux, q.quu, dx, du)
  }

  lemma {:induction false} GainsPerStage(stages: seq<Stage>, end: Value, damping: real, mode: Regularization)
    requires Back(stages, end, damping, mode).Some?
    ensures |Back(stages, end, damping, mode).value.gains| == |stages|
  {
    if stages != [] {
      GainsPerStage(stages[1..], end, damping, mode);
    }
  }

  lemma MovedValue(s: Stage, v: Value, dx: real, du: real)
    ensures ToGo(v, Moved(s, dx, du)) ==
            Poly(s.fx * v.vx, s.fu * v.vx, Sandwich(s.fx, v.vxx, s.fx), Sandwich(s.fu, v.vxx, s.fx),
                 Sandwich(s.fu, v.vxx, s.fu), dx, du)
  {
  }

  lemma PolyAdds(a: real, b: real, c: real, d: real, e: real, p: real, q: real, r: real, s: real, t: real,
                 x: real, y: real)
    ensures Poly(a, b, c, d, e, x, y) + Poly(p, q, r, s, t, x, y) ==
            Poly(a + p, b + q, c + r, d + s, e + t, x, y)
  {
  }

  lemma ExpandIsExact(s: Stage, v: Value, damping: real, mode: Regularization, dx: real, du: real)
    ensures StageCost(s, dx, du) + ToGo(v, Moved(s, dx, du)) == QuadraticCost(Expand(s, v, damping, mode), dx, du)
  {
    MovedValue(s, v, dx, du);
    StageAdds(s, Expand(s, v, damping, mode),
              s.fx * v.vx, s.fu * v.vx, Sandwich(s.fx, v.vxx, s.fx), Sandwich(s.fu, v.vxx, s.fx),
              Sandwich(s.fu, v.vxx, s.fu), dx, du);
  }

  lemma StageAdds(s: Stage, sum: Quadratic, a: real, b: real, c: real, d: real, e: real, dx: real, du: real)
    requires sum.qx == s.cx + a && sum.qu == s.cu + b
    requires sum.qxx == s.cxx + c && sum.qux == s.cxu + d && sum.quu == s.cuu + e
    ensures StageCost(s, dx, du) + Poly(a, b, c, d, e, dx, du) == QuadraticCost(sum, dx, du)
  {
    PolyAdds(s.cx, s.cu, s.cxx, s.cxu, s.cuu, a, b, c, d, e, dx, du);
  }

  // ----- What the regularization and the gains mean -----

  /** The quadratic that is minimized over the control. */
  function Damped(q: Quadratic): Quadratic {
    q.(qux := q.quxReg, quu := q.quuF)
  }

  /**
   Regularization on the state is a penalty on the next state, regularization on the controls one on the control: the
   damped quadratic has the control derivatives of cost plus cost-to-go plus penalty.
   */
  lemma DampingIsPenalty(s: Stage, v: Value, damping: real, mode: Regularization, dx: real, du: real)
    ensures var q := Expand(s, v, damping, mode);
            var p := if mode == OnState then Expand(s, v.(vxx := v.vxx + damping), 0.0, NoRegularization)
                     else if mode == OnControls then Expand(s.(cuu := s.cuu + damping), v, 0.0, NoRegularization)
                     else Expand(s, v, 0.0, NoRegularization);
            Damped(q).qu == p.qu && Damped(q).qux == p.qux && Damped(q).quu == p.quu
  {
    match mode
    case OnState =>
      SameTerms(s, v.vxx + damping, v.(vxx := v.vxx + damping).vxx);
    case OnControls =>
      SameTerms(s, v.vxx + 0.0, v.vxx);
    case NoRegularization =>
      SameTerms(s, v.vxx + 0.0, v.vxx);
  }

  lemma SameTerms(s: Stage, a: real, b: real)
    requires a == b
    ensures Sandwich(s.fu, a, s.fx) == Sandwich(s.fu, b, s.fx) && Sandwich(s.fu, a, s.fu) == Sandwich(s.fu, b, s.fu)
  {
  }

  lemma CompleteSquare(q: Quadratic, dx: real, du: real)
    requires q.quuF > 0.0
    ensures var best := Control(GainOf(q), 1.0, dx);
            QuadraticCost(Damped(q), dx, du) ==
            QuadraticCost(Damped(q), dx, best) + 0.5 * (q.quuF * ((du - best) * (du - best)))
  {
    var g := GainOf(q);
    SolvesFor(q.qu, q.quuF);
    SolvesFor(q.quxReg, q.quuF);
    SquareCompleted(q.qx, q.qu, q.qxx, q.quxReg, q.quuF, g, dx, du);
  }

  lemma SquareCompleted(qx: real, qu: real, qxx: real, qux: real, quu: real, g: Gain, x: real, u: real)
    requires qu == -(g.k * quu) && qux == -(g.K * quu)
    ensures var best := Control(g, 1.0, x);
            Poly(qx, qu, qxx, qux, quu, x, u) ==
            Poly(qx, qu, qxx, qux, quu, x, best) + 0.5 * (quu * ((u - best) * (u - best)))
  {
    SquareIdentity(qx, g.k, qxx, g.K, quu, x, u);
  }

  /** The gain is the negated quotient. */
  lemma SolvesFor(a: real, unit: real)
    requires unit > 0.0
    ensures a == -(-a / unit * unit)
  {
  }

  lemma SquareIdentity(qx: real, k: real, qxx: real, K: real, quu: real, x: real, u: real)
    ensures var best := 1.0 * k + K * x;
            Poly(qx, -(k * quu), qxx, -(K * quu), quu, x, u) ==
            Poly(qx, -(k * quu), qxx, -(K * quu), quu, x, best) + 0.5 * (quu * ((u - best) * (u - best)))
  {
  }

  /** At every state the gains give the control that minimizes the damped quadratic. */
  lemma GainsMinimize(q: Quadratic, dx: real, du: real)
    requires q.quuF > 0.0
    ensures QuadraticCost(Damped(q), dx, Control(GainOf(q), 1.0, dx)) <= QuadraticCost(Damped(q), dx, du)
  {
    var step := du - Control(GainOf(q), 1.0, dx);
    CompleteSquare(q, dx, du);
    assert step * step >= 0.0;
    assert q.quuF * (step * step) >= 0.0;
  }

  /** The damped quadratic has its only minimum at this change of the control. */
  ghost predicate IsMinimum(q: Quadratic, best: real) {
    forall du :: du != best ==> QuadraticCost(Damped(q), 0.0, best) < QuadraticCost(Damped(q), 0.0, du)
  }

  lemma AroundIt(qx: real, qu: real, qxx: real, qux: real, quu: real, u: real)
    ensures Poly(qx, qu, qxx, qux, quu, 0.0, u + 1.0) + Poly(qx, qu, qxx, qux, quu, 0.0, u - 1.0) ==
            2.0 * Poly(qx, qu, qxx, qux, quu, 0.0, u) + quu
  {
  }

  lemma GainsAreMinimum(q: Quadratic)
    requires q.quuF > 0.0
    ensures IsMinimum(q, Control(GainOf(q), 1.0, 0.0))
  {
    var best := Control(GainOf(q), 1.0, 0.0);
    forall du | du != best
      ensures QuadraticCost(Damped(q), 0.0, best) < QuadraticCost(Damped(q), 0.0, du)
    {
      CompleteSquare(q, 0.0, du);
      Reals.SquareIsPositive(du - best);
      Reals.TimesIsPositive(q.quuF, Reals.Square(du - best));
      assert Reals.Times(q.quuF, Reals.Square(du - best)) == q.quuF * ((du - best) * (du - best));
    }
  }

  lemma OtherIsNoWorse(q: Quadratic, best: real) returns (du: real)
    requires q.quuF <= 0.0
    ensures du != best && QuadraticCost(Damped(q), 0.0, best) >= QuadraticCost(Damped(q), 0.0, du)
  {
    AroundIt(q.qx, q.qu, q.qxx, q.quxReg, q.quuF, best);
    var up, down := QuadraticCost(Damped(q), 0.0, best + 1.0), QuadraticCost(Damped(q), 0.0, best - 1.0);
    du := if up <= down then best + 1.0 else best - 1.0;
  }

  lemma MinimumIff(q: Quadratic)
    ensures q.quuF > 0.0 <==> exists best :: IsMinimum(q, best)
  {
    if q.quuF > 0.0 {
      GainsAreMinimum(q);
    } else {
      forall best
        ensures !IsMinimum(q, best)
      {
        var du := OtherIsNoWorse(q, best);
      }
    }
  }

  /** The backward pass has come to this step, and no change of the control is best there. */
  ghost predicate BreaksAt(stages: seq<Stage>, end: Value, damping: real, mode: Regularization, k: nat) {
    k < |stages| &&
    match Back(stages[k + 1..], end, damping, mode)
    case None => false
    case Some(later) => forall best :: !IsMinimum(Expand(stages[k], later.value, damping, mode), best)
  }

  /** The backward pass fails exactly if it comes to a step whose damped quadratic has no single minimum. */
  lemma {:induction false} FailsIffUnbounded(stages: seq<Stage>, end: Value, damping: real, mode: Regularization)
    ensures Back(stages, end, damping, mode).None? <==> exists k :: BreaksAt(stages, end, damping, mode, k)
  {
    if stages != [] {
      var rest, later := stages[1..], Back(stages[1..], end, damping, mode);
      FailsIffUnbounded(rest, end, damping, mode);
      forall k: nat
        ensures BreaksAt(rest, end, damping, mode, k) == BreaksAt(stages, end, damping, mode, k + 1)
      {
        assert k < |rest| ==> rest[k + 1..] == stages[k + 2..];
      }
      if later.Some? {
        MinimumIff(Expand(stages[0], later.value.value, damping, mode));
        assert Back(stages, end, damping, mode).None? <==> BreaksAt(stages, end, damping, mode, 0);
      }
      if k: nat :| BreaksAt(stages, end, damping, mode, k) {
        assert k > 0 ==> BreaksAt(rest, end, damping, mode, k - 1);
      }
    }
  }

  /** The regularized minimizer is the minimizer, or the step is full. */
  predicate Consistent(q: Quadratic, g: Gain, alpha: real) {
    alpha == 1.0 || q.qux + q.quu * g.K == 0.0
  }

  lemma PolicyIdentity(q: Quadratic, g: Gain, alpha: real, dx: real)
    ensures QuadraticCost(q, dx, Control(g, alpha, dx)) ==
            Change(Linear(q, g), Curved(q, g), alpha) + ToGo(ValueOf(q, g), dx) +
            (alpha - 1.0) * (q.qux + q.quu * g.K) * (g.k * dx)
  {
  }

  lemma PolicyValue(q: Quadratic, g: Gain, alpha: real, dx: real)
    requires Consistent(q, g, alpha)
    ensures QuadraticCost(q, dx, Control(g, alpha, dx)) ==
            Change(Linear(q, g), Curved(q, g), alpha) + ToGo(ValueOf(q, g), dx)
  {
    PolicyIdentity(q, g, alpha, dx);
    Vanishes(alpha - 1.0, q.qux + q.quu * g.K, g.k * dx);
  }

  lemma Vanishes(a: real, b: real, c: real)
    requires a == 0.0 || b == 0.0
    ensures a * b * c == 0.0
  {
  }

  lemma UnregularizedGain(q: Quadratic)
    requires q.quuF > 0.0 && q.quuF == q.quu && q.quxReg == q.qux
    ensures q.qux + q.quu * GainOf(q).K == 0.0
  {
  }

  lemma ChangesAdd(a: real, b: real, c: real, d: real, alpha: real)
    ensures Change(a + b, c + d, alpha) == Change(a, c, alpha) + Change(b, d, alpha)
  {
  }

  /**
   For a full step, or without regularization for any step, alpha * (dV0 + alpha * dV1) is exactly the change of the
   modelled total cost under the new gains, and the value derivatives model its dependence on the initial state.
   */
  lemma {:induction false} ModelCostIsExpected(stages: seq<Stage>, end: Value, damping: real, mode: Regularization,
                                               alpha: real, dx: real)
    requires damping >= 0.0 && Back(stages, end, damping, mode).Some?
    requires alpha == 1.0 || damping == 0.0 || mode == NoRegularization
    ensures var p := Back(stages, end, damping, mode).value;
            |p.gains| == |stages| &&
            ModelCost(stages, end, p.gains, alpha, dx) ==
            Change(p.dV0, p.dV1, alpha) + ToGo(p.value, dx)
  {
    GainsPerStage(stages, end, damping, mode);
    if stages != [] {
      var s, later := stages[0], Back(stages[1..], end, damping, mode).value;
      var q := Expand(s, later.value, damping, mode);
      var g := GainOf(q);
      var du := Control(g, alpha, dx);
      var next := Moved(s, dx, du);
      GainsPerStage(stages[1..], end, damping, mode);
      ModelCostIsExpected(stages[1..], end, damping, mode, alpha, next);
      assert ([g] + later.gains)[1..] == later.gains;
      assert ModelCost(stages, end, [g] + later.gains, alpha, dx) ==
             StageCost(s, dx, du) + ModelCost(stages[1..], end, later.gains, alpha, next);
      ExpandIsExact(s, later.value, damping, mode, dx, du);
      Regularized(s, later.value, damping, mode);
      if alpha != 1.0 {
        UnregularizedGain(q);
      }
      PolicyValue(q, g, alpha, dx);
      ChangesAdd(later.dV0, Linear(q, g), later.dV1, Curved(q, g), alpha);
    }
  }
}
