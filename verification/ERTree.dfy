/**
 Growing the extremely randomized tree in place over the shared sample array
 (addons/llr/src/ertree.cpp). Random numbers are an input.
 */
module ERTree {
  import opened Reals
  import opened Sequences
  import opened ERTreeSpec
  import opened ERTreeChoice

  // ----- The vector loops of the constructor -----

  method AddOutputs(acc: seq<real>, x: Sample) returns (r: seq<real>)
    requires |acc| <= MAX_COORDS
    ensures |r| == |acc| && forall j :: 0 <= j < |r| ==> r[j] == acc[j] + x.out[j]
  {
    r := acc;
    for jj := 0 to |acc|
      invariant |r| == |acc|
      invariant forall j :: 0 <= j < jj ==> r[j] == acc[j] + x.out[j]
      invariant forall j :: jj <= j < |r| ==> r[j] == acc[j]
    {
      r := r[jj := r[jj] + x.out[jj]];
    }
  }

  method AddSquares(acc: seq<real>, x: Sample, mean: seq<real>) returns (r: seq<real>)
    requires |acc| == |mean| <= MAX_COORDS
    ensures |r| == |acc| && forall j :: 0 <= j < |r| ==> r[j] == acc[j] + Square(x.out[j] - mean[j])
  {
    r := acc;
    for jj := 0 to |acc|
      invariant |r| == |acc|
      invariant forall j :: 0 <= j < jj ==> r[j] == acc[j] + Square(x.out[j] - mean[j])
      invariant forall j :: jj <= j < |r| ==> r[j] == acc[j]
    {
      r := r[jj := r[jj] + Square(x.out[jj] - mean[jj])];
    }
  }

  method Divide(acc: seq<real>, num: nat) returns (r: seq<real>)
    requires num > 0
    ensures |r| == |acc| && forall j :: 0 <= j < |r| ==> r[j] == acc[j] / num as real
  {
    r := acc;
    for jj := 0 to |acc|
      invariant |r| == |acc|
      invariant forall j :: 0 <= j < jj ==> r[j] == acc[j] / num as real
      invariant forall j :: jj <= j < |r| ==> r[j] == acc[j]
    {
      r := r[jj := r[jj] / num as real];
    }
  }

  // ----- Input ranges and the choice of a split -----

  /** [low, high] is the exact range of input `j` over the samples. */
  ghost predicate Extent(s: seq<Sample>, j: Attr, low: real, high: real) {
    && (forall x :: x in s ==> low <= x.inp[j] <= high)
    && (exists x :: x in s && x.inp[j] == low)
    && (exists x :: x in s && x.inp[j] == high)
  }

  lemma ExtentWidens(s: seq<Sample>, x: Sample, j: Attr, low: real, high: real)
    requires Extent(s, j, low, high)
    ensures Extent(s + [x], j, if x.inp[j] < low then x.inp[j] else low, if x.inp[j] > high then x.inp[j] else high)
  {
    var t := s + [x];
    assert x in t;
    assert forall y :: y in s ==> y in t;
    var a :| a in s && a.inp[j] == low;
    var b :| b in s && b.inp[j] == high;
    assert a in t && b in t;
  }

  method Widen(x: Sample, low: seq<real>, high: seq<real>, ghost s: seq<Sample>) returns (low': seq<real>, high': seq<real>)
    requires |low| == |high| <= MAX_COORDS
    requires forall j :: 0 <= j < |low| ==> Extent(s, j, low[j], high[j])
    ensures |low'| == |high'| == |low|
    ensures forall j :: 0 <= j < |low| ==> Extent(s + [x], j, low'[j], high'[j])
  {
    low', high' := low, high;
    for jj := 0 to |low|
      invariant |low'| == |high'| == |low|
      invariant forall j :: 0 <= j < jj ==> Extent(s + [x], j, low'[j], high'[j])
      invariant forall j :: jj <= j < |low| ==> low'[j] == low[j] && high'[j] == high[j]
    {
      ExtentWidens(s, x, jj, low[jj], high[jj]);
      low' := low'[jj := if x.inp[jj] < low'[jj] then x.inp[jj] else low'[jj]];
      high' := high'[jj := if x.inp[jj] > high'[jj] then x.inp[jj] else high'[jj]];
    }
  }

  method InputRange(samples: array<Sample>, lo: nat, num: nat, inputs: nat) returns (low: seq<real>, high: seq<real>)
    requires 0 < num && lo + num <= samples.Length && inputs <= MAX_COORDS
    ensures |low| == |high| == inputs
    ensures forall j :: 0 <= j < inputs ==> Extent(samples[lo..lo + num], j, low[j], high[j])
  {
    low := samples[lo].inp[..inputs];
    high := low;
    assert samples[lo..lo + 1] == [samples[lo]];
    for ii := 1 to num
      invariant |low| == |high| == inputs
      invariant forall j :: 0 <= j < inputs ==> Extent(samples[lo..lo + ii], j, low[j], high[j])
    {
      low, high := Widen(samples[lo + ii], low, high, samples[lo..lo + ii]);
      assert samples[lo..lo + ii + 1] == samples[lo..lo + ii] + [samples[lo + ii]];
    }
  }

  /** No input varies exactly when all samples agree on all inputs. */
  lemma FlatMeansSame(s: seq<Sample>, low: seq<real>, high: seq<real>)
    requires |low| == |high| <= MAX_COORDS && forall j :: 0 <= j < |low| ==> Extent(s, j, low[j], high[j])
    ensures (forall j :: 0 <= j < |low| ==> low[j] == high[j]) <==> SameInputs(s, |low|)
  {
    if SameInputs(s, |low|) {
      forall j | 0 <= j < |low| ensures low[j] == high[j] {
        assert Extent(s, j, low[j], high[j]);
        var a :| a in s && a.inp[j] == low[j];
        var b :| b in s && b.inp[j] == high[j];
        assert a.inp[j] == b.inp[j];
      }
    } else {
      var x, y, j :| x in s && y in s && 0 <= j < |low| && x.inp[j] != y.inp[j];
      assert low[j] != high[j];
    }
  }

  /** A varying input always admits a split that leaves samples on both sides, so retrying a draw can succeed. */
  lemma SplitExists(s: seq<Sample>, j: Attr, low: real, high: real)
    requires Extent(s, j, low, high) && low != high
    ensures low <= (low + high) / 2.0 < high && NonTrivial(s, j, (low + high) / 2.0)
  {
    var point := (low + high) / 2.0;
    var a :| a in s && a.inp[j] == low;
    var b :| b in s && b.inp[j] == high;
    FilterMembers(IsLeft(j, point), s);
    FilterMembers(IsRight(j, point), s);
    assert a in LeftOf(s, j, point) && b in RightOf(s, j, point);
  }

  /** A draw from the range of its attribute that is not rejected as trivial. */
  ghost predicate Accepted(s: seq<Sample>, low: seq<real>, high: seq<real>, attr: Attr, point: real)
    requires |low| == |high|
  {
    attr < |low| && low[attr] <= point < high[attr] && NonTrivial(s, attr, point)
  }

  lemma SomeLeft(s: seq<Sample>, attr: Attr, point: real) returns (x: Sample)
    requires NonTrivial(s, attr, point)
    ensures x in s && x.inp[attr] < point
  {
    x := LeftOf(s, attr, point)[0];
    FilterMembers(IsLeft(attr, point), s);
  }

  lemma SplitIsInside(s: seq<Sample>, low: seq<real>, high: seq<real>, attr: Attr, point: real)
    requires |low| == |high| <= MAX_COORDS && attr < |low| && Extent(s, attr, low[attr], high[attr])
    requires Uniform(s, attr, point) && NonTrivial(s, attr, point)
    ensures Accepted(s, low, high, attr, point)
  {
    var x := SomeLeft(s, attr, point);
  }

  lemma ComesIsSuccess(rand: Random, s: seq<Sample>, start: nat)
    requires SplitComes(rand, s, start)
    ensures exists n :: start <= n && Splitting(s)(Attempts(rand, s)(n))
  {
    var n: nat :| start <= n && Splits(s, rand(s, n));
    assert Splitting(s)(Attempts(rand, s)(n));
  }

  /** One accepted draw. */
  method DrawSplit(s: seq<Sample>, rand: Random, start: nat, low: seq<real>, high: seq<real>)
    returns (attr: Attr, point: real, next: nat)
    requires |low| == |high| <= MAX_COORDS && !SameInputs(s, |low|) && Supplies(rand, |low|)
    requires forall j :: 0 <= j < |low| ==> Extent(s, j, low[j], high[j])
    ensures Accepted(s, low, high, attr, point)
    ensures start < next && Tried(rand, s, next) == Tried(rand, s, start) + [(attr, point)]
  {
    assert SplitComes(rand, s, start);
    ComesIsSuccess(rand, s, start);
    var draw;
    draw, next := NextSuccess(Attempts(rand, s), Splitting(s), start);
    attr, point := draw.0, draw.1;
    assert IsAttempt(rand, s, next - 1, |low|);
    SplitIsInside(s, low, high, attr, point);
  }

  // ----- Evaluating a split -----

  lemma FilterStep(p: Sample -> bool, s: seq<Sample>, ii: nat)
    requires ii < |s|
    ensures Filter(p, s[..ii + 1]) == if p(s[ii]) then Filter(p, s[..ii]) + [s[ii]] else Filter(p, s[..ii])
    ensures |Filter(p, s[..ii + 1])| <= |Filter(p, s)|
  {
    assert s[..ii + 1][..ii] == s[..ii];
    FilterPrefix(p, s, ii + 1);
  }

  /** One more sample joins the left or the right part, and neither part outgrows its final size. */
  lemma Sides(s: seq<Sample>, ii: nat, attr: Attr, point: real, l: seq<Sample>, r: seq<Sample>)
    returns (l': seq<Sample>, r': seq<Sample>)
    requires ii < |s| && l == LeftOf(s[..ii], attr, point) && r == RightOf(s[..ii], attr, point)
    ensures l' == LeftOf(s[..ii + 1], attr, point) && r' == RightOf(s[..ii + 1], attr, point)
    ensures s[ii].inp[attr] < point ==> l' == l + [s[ii]] && r' == r
    ensures !(s[ii].inp[attr] < point) ==> l' == l && r' == r + [s[ii]]
    ensures |l'| <= |LeftOf(s, attr, point)| && |r'| <= |RightOf(s, attr, point)|
  {
    FilterStep(IsLeft(attr, point), s, ii);
    FilterStep(IsRight(attr, point), s, ii);
    l', r' := LeftOf(s[..ii + 1], attr, point), RightOf(s[..ii + 1], attr, point);
  }

  lemma TotalStep(s: seq<Sample>, x: Sample, j: Attr, m: real)
    ensures Sum(Column(s + [x], j)) == Sum(Column(s, j)) + x.out[j]
    ensures SquaredDeviations(Column(s + [x], j), m) == SquaredDeviations(Column(s, j), m) + Square(x.out[j] - m)
  {
    assert Column(s + [x], j) == Column(s, j) + [x.out[j]];
    SumsPush(Column(s, j), x.out[j], m);
  }

  /** Are `acc` the sums of the outputs over `s`? */
  ghost predicate Totals(acc: seq<real>, s: seq<Sample>) {
    |acc| <= MAX_COORDS && forall j :: 0 <= j < |acc| ==> acc[j] == Sum(Column(s, j))
  }

  /** Are `acc` the squared distances to `mean` over `s`, on top of `start`? */
  ghost predicate Spreads(acc: seq<real>, start: seq<real>, s: seq<Sample>, mean: seq<real>) {
    |acc| == |start| == |mean| <= MAX_COORDS &&
    forall j :: 0 <= j < |acc| ==> acc[j] == start[j] + SquaredDeviations(Column(s, j), mean[j])
  }

  lemma TotalsStep(acc: seq<real>, acc': seq<real>, s: seq<Sample>, x: Sample)
    requires Totals(acc, s) && |acc'| == |acc| && forall j :: 0 <= j < |acc| ==> acc'[j] == acc[j] + x.out[j]
    ensures Totals(acc', s + [x])
  {
    forall j | 0 <= j < |acc| ensures acc'[j] == Sum(Column(s + [x], j)) {
      TotalStep(s, x, j, 0.0);
    }
  }

  lemma SpreadsStep(acc: seq<real>, acc': seq<real>, start: seq<real>, s: seq<Sample>, x: Sample, mean: seq<real>)
    requires Spreads(acc, start, s, mean) && |acc'| == |acc|
    requires forall j :: 0 <= j < |acc| ==> acc'[j] == acc[j] + Square(x.out[j] - mean[j])
    ensures Spreads(acc', start, s + [x], mean)
  {
    forall j | 0 <= j < |acc| ensures acc'[j] == start[j] + SquaredDeviations(Column(s + [x], j), mean[j]) {
      TotalStep(s, x, j, mean[j]);
    }
  }

  method SideTotals(samples: array<Sample>, lo: nat, num: nat, attr: Attr, point: real, outputs: Outputs)
    returns (totalL: seq<real>, totalR: seq<real>, numL: nat, numR: nat)
    requires lo + num <= samples.Length
    ensures |totalL| == |totalR| == outputs
    ensures numL == |LeftOf(samples[lo..lo + num], attr, point)| && Totals(totalL, LeftOf(samples[lo..lo + num], attr, point))
    ensures numR == |RightOf(samples[lo..lo + num], attr, point)| &&
            Totals(totalR, RightOf(samples[lo..lo + num], attr, point))
  {
    ghost var s := samples[lo..lo + num];
    totalL := seq(outputs, j => 0.0);
    totalR, numL, numR := totalL, 0, 0;
    ghost var l, r := [], [];
    for ii := 0 to num
      invariant |totalL| == |totalR| == outputs
      invariant l == LeftOf(s[..ii], attr, point) && numL == |l| && Totals(totalL, l)
      invariant r == RightOf(s[..ii], attr, point) && numR == |r| && Totals(totalR, r)
    {
      var x := samples[lo + ii];
      ghost var l', r' := Sides(s, ii, attr, point, l, r);
      if x.inp[attr] < point {
        var t := AddOutputs(totalL, x);
        TotalsStep(totalL, t, l, x);
        totalL, numL := t, numL + 1;
      } else {
        var t := AddOutputs(totalR, x);
        TotalsStep(totalR, t, r, x);
        totalR, numR := t, numR + 1;
      }
      l, r := l', r';
    }
    assert s[..num] == s;
  }

  method SideSpreads(samples: array<Sample>, lo: nat, num: nat, attr: Attr, point: real,
                     startL: seq<real>, startR: seq<real>, meanL: seq<real>, meanR: seq<real>)
    returns (accL: seq<real>, accR: seq<real>)
    requires lo + num <= samples.Length && |startL| == |startR| == |meanL| == |meanR| <= MAX_COORDS
    ensures Spreads(accL, startL, LeftOf(samples[lo..lo + num], attr, point), meanL)
    ensures Spreads(accR, startR, RightOf(samples[lo..lo + num], attr, point), meanR)
  {
    ghost var s := samples[lo..lo + num];
    accL, accR := startL, startR;
    ghost var l, r := [], [];
    for ii := 0 to num
      invariant l == LeftOf(s[..ii], attr, point) && Spreads(accL, startL, l, meanL)
      invariant r == RightOf(s[..ii], attr, point) && Spreads(accR, startR, r, meanR)
    {
      var x := samples[lo + ii];
      ghost var l', r' := Sides(s, ii, attr, point, l, r);
      if x.inp[attr] < point {
        var t := AddSquares(accL, x, meanL);
        SpreadsStep(accL, t, startL, l, x, meanL);
        accL := t;
      } else {
        var t := AddSquares(accR, x, meanR);
        SpreadsStep(accR, t, startR, r, x, meanR);
        accR := t;
      }
      l, r := l', r';
    }
    assert s[..num] == s;
  }

  lemma DividedTotals(total: seq<real>, mean: seq<real>, s: seq<Sample>)
    requires s != [] && Totals(total, s) && |mean| == |total|
    requires forall j :: 0 <= j < |total| ==> mean[j] == total[j] / |s| as real
    ensures forall j :: 0 <= j < |total| ==> mean[j] == Mean(Column(s, j))
  {
  }

  lemma DividedSpreads(acc: seq<real>, v: seq<real>, start: seq<real>, mean: seq<real>, s: seq<Sample>)
    requires s != [] && Spreads(acc, start, s, mean) && |v| == |acc|
    requires forall j :: 0 <= j < |acc| ==> mean[j] == Mean(Column(s, j)) && v[j] == acc[j] / |s| as real
    ensures v == InflatedVariances(s, start)
    ensures (forall j :: 0 <= j < |acc| ==> start[j] == 0.0) ==> v == Variances(s, |acc|)
  {
  }

  /** The candidate's variances: the left ones exact, the right ones on top of the parent's. */
  method SplitVariances(samples: array<Sample>, lo: nat, num: nat, attr: Attr, point: real, v: seq<real>)
    returns (numL: nat, numR: nat, varL: seq<real>, varR: seq<real>)
    requires lo + num <= samples.Length && |v| <= MAX_COORDS && NonTrivial(samples[lo..lo + num], attr, point)
    ensures numL == |LeftOf(samples[lo..lo + num], attr, point)|
    ensures numR == |RightOf(samples[lo..lo + num], attr, point)|
    ensures varL == Variances(LeftOf(samples[lo..lo + num], attr, point), |v|)
    ensures varR == InflatedVariances(RightOf(samples[lo..lo + num], attr, point), v)
  {
    ghost var l, r := LeftOf(samples[lo..lo + num], attr, point), RightOf(samples[lo..lo + num], attr, point);
    var totalL, totalR;
    totalL, totalR, numL, numR := SideTotals(samples, lo, num, attr, point, |v|);
    var meanL := Divide(totalL, numL);
    var meanR := Divide(totalR, numR);
    DividedTotals(totalL, meanL, l);
    DividedTotals(totalR, meanR, r);
    var zero := seq(|v|, j => 0.0);
    var accL, accR := SideSpreads(samples, lo, num, attr, point, zero, v, meanL, meanR);
    varL := Divide(accL, numL);
    varR := Divide(accR, numR);
    DividedSpreads(accL, varL, zero, meanL, l);
    DividedSpreads(accR, varR, v, meanR, r);
  }

  /** The part of an output's variance that a split takes away. */
  function Reduction(v: real, varL: real, varR: real, fracL: real, fracR: real): real
    requires v > 0.0
  {
    (v - fracL * varL - fracR * varR) / v
  }

  /** The relative variance reduction that a split is scored by, over the first `upto` outputs. */
  function Score(v: seq<real>, varL: seq<real>, varR: seq<real>, fracL: real, fracR: real, upto: nat): real
    requires |v| == |varL| == |varR| && upto <= |v|
  {
    if upto == 0 then 0.0
    else
      var j := upto - 1;
      Score(v, varL, varR, fracL, fracR, j) +
      if v[j] > 0.0 then Reduction(v[j], varL[j], varR[j], fracL, fracR) else 0.0
  }

  method ComputeScore(v: seq<real>, varL: seq<real>, varR: seq<real>, numL: nat, numR: nat, num: nat) returns (score: real)
    requires |v| == |varL| == |varR| && num > 0
    ensures score == Score(v, varL, varR, Quotient(numL as real, num as real), Quotient(numR as real, num as real), |v|)
  {
    var fracL, fracR := Quotient(numL as real, num as real), Quotient(numR as real, num as real);
    score := 0.0;
    for jj := 0 to |v|
      invariant score == Score(v, varL, varR, fracL, fracR, jj)
    {
      if v[jj] > 0.0 {
        score := score + Reduction(v[jj], varL[jj], varR[jj], fracL, fracR);
      }
    }
  }

  /** The score of splitting `s` at (attr, point). */
  function SplitScore(s: seq<Sample>, v: seq<real>, attr: Attr, point: real): real
    requires |v| <= MAX_COORDS && NonTrivial(s, attr, point)
  {
    var l, r := LeftOf(s, attr, point), RightOf(s, attr, point);
    Score(v, Variances(l, |v|), InflatedVariances(r, v), Quotient(|l| as real, |s| as real),
          Quotient(|r| as real, |s| as real), |v|)
  }

  datatype Best = None | Some(attr: Attr, point: real, numL: nat, numR: nat, varL: seq<real>, varR: seq<real>, score: real)

  ghost predicate Describes(best: Best, s: seq<Sample>, v: seq<real>, inputs: nat)
    requires |v| <= MAX_COORDS
  {
    best.Some? ==>
      && best.attr < inputs && NonTrivial(s, best.attr, best.point)
      && best.numL == |LeftOf(s, best.attr, best.point)| && best.numR == |RightOf(s, best.attr, best.point)|
      && best.varL == Variances(LeftOf(s, best.attr, best.point), |v|)
      && best.varR == InflatedVariances(RightOf(s, best.attr, best.point), v)
      && best.score == SplitScore(s, v, best.attr, best.point)
  }

  predicate AllNonTrivial(s: seq<Sample>, draws: seq<(Attr, real)>) {
    forall i :: 0 <= i < |draws| ==> NonTrivial(s, draws[i].0, draws[i].1)
  }

  /** The scores of the splits that are drawn. */
  function Scores(draws: seq<(Attr, real)>, s: seq<Sample>, v: seq<real>): (r: seq<real>)
    requires |v| <= MAX_COORDS && AllNonTrivial(s, draws)
  {
    seq(|draws|, i requires 0 <= i < |draws| => SplitScore(s, v, draws[i].0, draws[i].1))
  }

  /** The number at `k` is the highest of all, and the first that is that high. */
  predicate FirstHighest(scores: seq<real>, k: nat) {
    && k < |scores| && (forall i :: 0 <= i < |scores| ==> scores[i] <= scores[k])
    && forall i :: 0 <= i < k ==> scores[i] < scores[k]
  }

  /** One more number takes the first place when it is higher than the highest so far. */
  lemma OneMoreScore(scores: seq<real>, kk: nat, k: nat)
    requires kk < |scores| && FirstHighest(scores[..kk], k)
    ensures FirstHighest(scores[..kk + 1], if scores[kk] > scores[k] then kk else k)
  {
    assert forall i :: 0 <= i < kk ==> scores[..kk][i] == scores[..kk + 1][i];
  }

  /** As many accepted draws as splits are to be tried. */
  method DrawSplits(s: seq<Sample>, rand: Random, low: seq<real>, high: seq<real>, splits: nat)
    returns (draws: seq<(Attr, real)>, ghost n: nat)
    requires |low| == |high| <= MAX_COORDS && !SameInputs(s, |low|) && Supplies(rand, |low|)
    requires forall j :: 0 <= j < |low| ==> Extent(s, j, low[j], high[j])
    ensures |draws| == splits && draws == Tried(rand, s, n)
    ensures forall k :: 0 <= k < splits ==> Accepted(s, low, high, draws[k].0, draws[k].1)
  {
    draws, n := [], 0;
    var next := 0;
    for kk := 0 to splits
      invariant |draws| == kk && n == next && draws == Tried(rand, s, n)
      invariant forall k :: 0 <= k < kk ==> Accepted(s, low, high, draws[k].0, draws[k].1)
    {
      var attr, point;
      attr, point, next := DrawSplit(s, rand, next, low, high);
      draws, n := draws + [(attr, point)], next;
    }
  }

  /** Counts, variances and score of one split. */
  method ScoreSplit(samples: array<Sample>, lo: nat, num: nat, v: seq<real>, attr: Attr, point: real, ghost inputs: nat)
    returns (split: Best)
    requires 0 < num && lo + num <= samples.Length && |v| <= MAX_COORDS
    requires attr < inputs && NonTrivial(samples[lo..lo + num], attr, point)
    ensures split.Some? && split.attr == attr && split.point == point
    ensures Describes(split, samples[lo..lo + num], v, inputs)
  {
    var numL, numR, varL, varR := SplitVariances(samples, lo, num, attr, point, v);
    var score := ComputeScore(v, varL, varR, numL, numR, num);
    split := Some(attr, point, numL, numR, varL, varR, score);
  }

  /** After kk draws the best one is the first with the highest score. */
  ghost predicate Chosen(best: Best, chosen: nat, scores: seq<real>, draws: seq<(Attr, real)>, kk: nat) {
    && |scores| == |draws| && kk <= |draws| && (best.Some? <==> kk > 0)
    && (best.Some? ==> FirstHighest(scores[..kk], chosen) && best.score == scores[chosen] &&
                       draws[chosen] == (best.attr, best.point))
  }

  lemma ChosenStep(best: Best, chosen: nat, scores: seq<real>, draws: seq<(Attr, real)>, kk: nat, split: Best)
    requires kk < |draws| && Chosen(best, chosen, scores, draws, kk)
    requires split.Some? && split.score == scores[kk] && draws[kk] == (split.attr, split.point)
    ensures if best.None? || split.score > best.score then Chosen(split, kk, scores, draws, kk + 1)
            else Chosen(best, chosen, scores, draws, kk + 1)
  {
    if best.Some? {
      OneMoreScore(scores, kk, chosen);
    }
  }

  /** Of the accepted draws the first one with the highest score is remembered. */
  method FindSplit(samples: array<Sample>, lo: nat, num: nat, v: seq<real>, low: seq<real>, high: seq<real>,
                   draws: seq<(Attr, real)>)
    returns (best: Best, ghost chosen: nat)
    requires 0 < num && lo + num <= samples.Length && |v| <= MAX_COORDS && |low| == |high|
    requires forall k :: 0 <= k < |draws| ==> Accepted(samples[lo..lo + num], low, high, draws[k].0, draws[k].1)
    ensures Describes(best, samples[lo..lo + num], v, |low|)
    ensures AllNonTrivial(samples[lo..lo + num], draws)
    ensures Chosen(best, chosen, Scores(draws, samples[lo..lo + num], v), draws, |draws|)
    ensures best.Some? ==> FirstLeast(samples[lo..lo + num], v, draws, chosen) && draws[chosen] == (best.attr, best.point)
  {
    ghost var s := samples[lo..lo + num];
    assert AllNonTrivial(s, draws) by {
      assert forall k :: 0 <= k < |draws| ==> Accepted(s, low, high, draws[k].0, draws[k].1);
    }
    ghost var scores := Scores(draws, s, v);
    best, chosen := None, 0;
    for kk := 0 to |draws|
      invariant Describes(best, s, v, |low|) && Chosen(best, chosen, scores, draws, kk)
    {
      assert Accepted(s, low, high, draws[kk].0, draws[kk].1);
      var split := ScoreSplit(samples, lo, num, v, draws[kk].0, draws[kk].1, |low|);
      ChosenStep(best, chosen, scores, draws, kk, split);
      if best.None? || split.score > best.score {
        best, chosen := split, kk;
      }
    }
    assert scores[..|draws|] == scores;
    HighestIsLeast(s, v, draws, chosen);
  }

  // ----- The highest score is the least spread -----

  lemma ScoreTerm(l: real, r: real, n: real, v: real, varL: real, varR: real, spread: real, fracL: real, fracR: real)
    requires n > 0.0 && v > 0.0 && Times(l, varL) + Times(r, varR) == spread + v
    requires fracL == Quotient(l, n) && fracR == Quotient(r, n)
    ensures Reduction(v, varL, varR, fracL, fracR) == 1.0 - Quotient(Quotient(spread, v) + 1.0, n)
  {
    Fraction(l, varL, n);
    Fraction(r, varR, n);
    QuotientAdds(Times(l, varL), Times(r, varR), n);
    ShareOf(spread, v, n);
  }

  lemma Fraction(l: real, x: real, n: real)
    requires n > 0.0
    ensures Quotient(l, n) * x == Quotient(Times(l, x), n)
  {
  }

  lemma ShareOf(spread: real, v: real, n: real)
    requires n > 0.0 && v > 0.0
    ensures (v - Quotient(spread + v, n)) / v == 1.0 - Quotient(Quotient(spread, v) + 1.0, n)
  {
    var q := Quotient(Quotient(spread, v) + 1.0, n);
    Multiple(spread, v);
    Multiple(Quotient(spread, v) + 1.0, n);
    Multiple(spread + v, n);
    Unique(Quotient(spread + v, n), Times(q, v), n, Quotient(spread, v), v, q);
    Cancel(1.0 - q, v);
  }

  lemma Multiple(a: real, n: real)
    requires n > 0.0
    ensures Times(Quotient(a, n), n) == a
  {
  }

  lemma Unique(p: real, r: real, n: real, a: real, v: real, q: real)
    requires n > 0.0 && Times(p, n) == Times(a, v) + v && r == Times(q, v) && Times(q, n) == a + 1.0
    ensures p == r && v - r == Times(1.0 - q, v)
  {
    assert r * n == q * n * v;
    assert (p - r) * n == 0.0;
  }

  lemma Cancel(a: real, v: real)
    requires v > 0.0
    ensures Times(a, v) / v == a
  {
  }

  lemma QuotientAdds(a: real, b: real, n: real)
    requires n > 0.0
    ensures Quotient(a, n) + Quotient(b, n) == Quotient(a + b, n)
  {
  }

  /** The variances and sizes of both sides, as the score is computed from them. */
  ghost predicate SidesOf(s: seq<Sample>, v: seq<real>, draw: (Attr, real), varL: seq<real>, varR: seq<real>,
                          fracL: real, fracR: real)
    requires |v| <= MAX_COORDS && Splits(s, draw)
  {
    var l, r := LeftOf(s, draw.0, draw.1), RightOf(s, draw.0, draw.1);
    && varL == Variances(l, |v|) && varR == InflatedVariances(r, v)
    && fracL == Quotient(|l| as real, |s| as real) && fracR == Quotient(|r| as real, |s| as real)
  }

  /** The score of a split: one for every output that varies, less its share of what spread is left. */
  function ScoreOf(varying: real, spread: real, n: real): real
    requires n > 0.0
  {
    varying - Quotient(spread + varying, n)
  }

  lemma TermOf(s: seq<Sample>, v: seq<real>, draw: (Attr, real), varL: seq<real>, varR: seq<real>,
               fracL: real, fracR: real, j: nat, n: real)
    requires j < |v| == |varL| == |varR| <= MAX_COORDS && Splits(s, draw) && n == |s| as real > 0.0 && v[j] > 0.0
    requires SidesOf(s, v, draw, varL, varR, fracL, fracR)
    ensures Reduction(v[j], varL[j], varR[j], fracL, fracR) == ScoreOf(1.0, Quotient(Spread(s, draw, j), v[j]), n)
  {
    var l, r := |LeftOf(s, draw.0, draw.1)| as real, |RightOf(s, draw.0, draw.1)| as real;
    SpreadIsVariance(s, v, draw, j);
    ScoreTerm(l, r, n, v[j], varL[j], varR[j], Spread(s, draw, j), fracL, fracR);
  }

  lemma ScoresAdd(a: real, b: real, p: real, q: real, n: real)
    requires n > 0.0
    ensures ScoreOf(a, p, n) + ScoreOf(b, q, n) == ScoreOf(a + b, p + q, n)
  {
    QuotientAdds(p + a, q + b, n);
  }

  lemma ScoreOrder(varying: real, a: real, b: real, n: real)
    requires n > 0.0
    ensures ScoreOf(varying, a, n) <= ScoreOf(varying, b, n) <==> b <= a
  {
    QuotientOrder(b + varying, a + varying, n);
  }

  lemma ScoreOfNothing(n: real)
    requires n > 0.0
    ensures ScoreOf(0.0, 0.0, n) == 0.0
  {
  }

  lemma OneMoreOutput(s: seq<Sample>, v: seq<real>, draw: (Attr, real), varL: seq<real>, varR: seq<real>, fracL: real,
                      fracR: real, j: nat, n: real)
    requires j < |v| == |varL| == |varR| <= MAX_COORDS && Splits(s, draw) && n == |s| as real > 0.0
    requires SidesOf(s, v, draw, varL, varR, fracL, fracR)
    ensures ScoreOf(Varying(v, j + 1), TotalSpread(s, v, draw, j + 1), n) ==
            ScoreOf(Varying(v, j), TotalSpread(s, v, draw, j), n) +
            if v[j] > 0.0 then Reduction(v[j], varL[j], varR[j], fracL, fracR) else 0.0
  {
    if v[j] > 0.0 {
      TermOf(s, v, draw, varL, varR, fracL, fracR, j, n);
      ScoresAdd(Varying(v, j), 1.0, TotalSpread(s, v, draw, j), Quotient(Spread(s, draw, j), v[j]), n);
    }
  }

  lemma {:induction false} ScoreIsSpread(s: seq<Sample>, v: seq<real>, draw: (Attr, real), varL: seq<real>, varR: seq<real>,
                                         fracL: real, fracR: real, upto: nat, n: real)
    requires upto <= |v| == |varL| == |varR| <= MAX_COORDS && Splits(s, draw) && n == |s| as real > 0.0
    requires SidesOf(s, v, draw, varL, varR, fracL, fracR)
    ensures Score(v, varL, varR, fracL, fracR, upto) == ScoreOf(Varying(v, upto), TotalSpread(s, v, draw, upto), n)
  {
    if upto == 0 {
      ScoreOfNothing(n);
    } else {
      ScoreIsSpread(s, v, draw, varL, varR, fracL, fracR, upto - 1, n);
      OneMoreOutput(s, v, draw, varL, varR, fracL, fracR, upto - 1, n);
    }
  }

  lemma SplitScoreOf(s: seq<Sample>, v: seq<real>, attr: Attr, point: real)
    returns (varL: seq<real>, varR: seq<real>, fracL: real, fracR: real)
    requires |v| <= MAX_COORDS && NonTrivial(s, attr, point)
    ensures |varL| == |varR| == |v| && SidesOf(s, v, (attr, point), varL, varR, fracL, fracR)
    ensures SplitScore(s, v, attr, point) == Score(v, varL, varR, fracL, fracR, |v|)
  {
    var l, r := LeftOf(s, attr, point), RightOf(s, attr, point);
    varL, varR := Variances(l, |v|), InflatedVariances(r, v);
    fracL, fracR := Quotient(|l| as real, |s| as real), Quotient(|r| as real, |s| as real);
  }

  lemma SplitScoreIs(s: seq<Sample>, v: seq<real>, draw: (Attr, real), n: real)
    requires |v| <= MAX_COORDS && Splits(s, draw) && n == |s| as real > 0.0
    ensures SplitScore(s, v, draw.0, draw.1) == ScoreOf(Varying(v, |v|), TotalSpread(s, v, draw, |v|), n)
  {
    var varL, varR, fracL, fracR := SplitScoreOf(s, v, draw.0, draw.1);
    ScoreIsSpread(s, v, draw, varL, varR, fracL, fracR, |v|, n);
  }

  lemma HigherIsLess(s: seq<Sample>, v: seq<real>, a: (Attr, real), b: (Attr, real), n: real)
    requires |v| <= MAX_COORDS && Splits(s, a) && Splits(s, b) && n == |s| as real > 0.0
    ensures SplitScore(s, v, a.0, a.1) <= SplitScore(s, v, b.0, b.1) <==>
            TotalSpread(s, v, b, |v|) <= TotalSpread(s, v, a, |v|)
  {
    SplitScoreIs(s, v, a, n);
    SplitScoreIs(s, v, b, n);
    ScoreOrder(Varying(v, |v|), TotalSpread(s, v, a, |v|), TotalSpread(s, v, b, |v|), n);
  }

  lemma NotEmpty(s: seq<Sample>, draw: (Attr, real))
    requires Splits(s, draw)
    ensures |s| > 0
  {
  }

  /** The first draw with the highest score is the first that leaves the least spread. */
  lemma HighestIsLeast(s: seq<Sample>, v: seq<real>, draws: seq<(Attr, real)>, k: nat)
    requires |v| <= MAX_COORDS && AllNonTrivial(s, draws)
    ensures FirstHighest(Scores(draws, s, v), k) <==> FirstLeast(s, v, draws, k)
  {
    if k < |draws| {
      forall i | 0 <= i < |draws|
        ensures Scores(draws, s, v)[i] <= Scores(draws, s, v)[k] <==>
                TotalSpread(s, v, draws[k], |v|) <= TotalSpread(s, v, draws[i], |v|)
        ensures Scores(draws, s, v)[k] <= Scores(draws, s, v)[i] <==>
                TotalSpread(s, v, draws[i], |v|) <= TotalSpread(s, v, draws[k], |v|)
      {
        NotEmpty(s, draws[i]);
        HigherIsLess(s, v, draws[i], draws[k], |s| as real);
        HigherIsLess(s, v, draws[k], draws[i], |s| as real);
      }
    }
  }

  // ----- Growing the tree -----

  /** `m'` is `m` with the range of `num` samples at `lo` replaced by `t`. */
  ghost predicate Replaces(m: seq<Sample>, m': seq<Sample>, lo: nat, num: nat, t: seq<Sample>) {
    && |m'| == |m| && lo + num <= |m|
    && m'[..lo] == m[..lo] && m'[lo..lo + num] == t && m'[lo + num..] == m[lo + num..]
  }

  lemma SideSizes(s: seq<Sample>, attr: Attr, point: real)
    ensures |LeftOf(s, attr, point)| + |RightOf(s, attr, point)| == |s|
  {
    SplitSizes(s, attr, point);
  }

  /** Fill the buffer from both sides: left samples from its start, right samples from index `numL`. */
  method FillBuffer(samples: array<Sample>, lo: nat, num: nat, attr: Attr, point: real, numL: nat)
    returns (buffer: array<Sample>)
    requires lo + num <= samples.Length && numL == |LeftOf(samples[lo..lo + num], attr, point)|
    ensures fresh(buffer) && buffer.Length == num
    ensures buffer[..] == LeftOf(samples[lo..lo + num], attr, point) + RightOf(samples[lo..lo + num], attr, point)
  {
    ghost var s := samples[lo..lo + num];
    ghost var l, r := [], [];
    SideSizes(s, attr, point);
    buffer := new Sample[num];
    var idxL, idxR := 0, numL;
    for ii := 0 to num
      invariant l == LeftOf(s[..ii], attr, point) && r == RightOf(s[..ii], attr, point)
      invariant idxL == |l| <= numL && idxR == numL + |r| <= num
      invariant buffer[0..idxL] == l && buffer[numL..idxR] == r
    {
      l, r := Sides(s, ii, attr, point, l, r);
      if samples[lo + ii].inp[attr] < point {
        Put(buffer, 0, idxL, samples[lo + ii], numL, idxR);
        idxL := idxL + 1;
      } else {
        Put(buffer, numL, idxR, samples[lo + ii], 0, idxL);
        idxR := idxR + 1;
      }
    }
    assert s[..num] == s;
    assert buffer[..] == buffer[0..numL] + buffer[numL..num];
  }

  /** new_samples[idx] = x, where [base..idx) is the part that grows and [from..to) the other one. */
  method Put(buffer: array<Sample>, ghost base: nat, idx: nat, x: Sample, ghost from: nat, ghost to: nat)
    requires base <= idx < buffer.Length && from <= to <= buffer.Length && !(from <= idx < to)
    modifies buffer
    ensures buffer[base..idx + 1] == old(buffer[base..idx]) + [x]
    ensures buffer[from..to] == old(buffer[from..to])
  {
    buffer[idx] := x;
  }

  /** The range is overwritten. */
  lemma CopiedRange(m: seq<Sample>, m': seq<Sample>, lo: nat, t: seq<Sample>)
    requires lo + |t| <= |m| == |m'|
    requires forall i :: 0 <= i < |t| ==> m'[lo + i] == t[i]
    requires forall i :: 0 <= i < |m| && !(lo <= i < lo + |t|) ==> m'[i] == m[i]
    ensures Replaces(m, m', lo, |t|, t)
  {
    assert m'[lo..lo + |t|] == t by {
      forall i | 0 <= i < |t|
        ensures m'[lo..lo + |t|][i] == t[i]
      {
      }
    }
  }

  /** Stable partition of a range through a buffer. */
  method Partition(samples: array<Sample>, lo: nat, num: nat, attr: Attr, point: real, numL: nat)
    requires lo + num <= samples.Length && numL == |LeftOf(samples[lo..lo + num], attr, point)|
    modifies samples
    ensures Replaces(old(samples[..]), samples[..], lo, num,
                     LeftOf(old(samples[lo..lo + num]), attr, point) + RightOf(old(samples[lo..lo + num]), attr, point))
  {
    var buffer := FillBuffer(samples, lo, num, attr, point, numL);
    forall ii | 0 <= ii < num {
      samples[lo + ii] := buffer[ii];
    }
    CopiedRange(old(samples[..]), samples[..], lo, buffer[..]);
  }

  /** Replacing the two halves of a range one after the other replaces the range, and the halves do not interfere. */
  lemma ReplaceHalves(m0: seq<Sample>, m1: seq<Sample>, m2: seq<Sample>, lo: nat, numL: nat, numR: nat,
                      l: seq<Sample>, r: seq<Sample>)
    requires Replaces(m0, m1, lo, numL, l) && Replaces(m1, m2, lo + numL, numR, r)
    ensures Replaces(m0, m2, lo, numL + numR, l + r)
    ensures m2[lo..lo + numL] == l
  {
    var mid, hi := lo + numL, lo + numL + numR;
    assert m2[..lo] == m2[..mid][..lo] == m1[..lo];
    assert m2[lo..mid] == m2[..mid][lo..] == m1[lo..mid];
    assert m2[lo..hi] == m2[lo..mid] + m2[mid..hi];
    assert m1[hi..] == m1[mid..][numR..] == m0[mid..][numR..] == m0[hi..];
  }

  lemma ReplaceTwice(m0: seq<Sample>, m1: seq<Sample>, m2: seq<Sample>, lo: nat, num: nat, s: seq<Sample>, t: seq<Sample>)
    requires Replaces(m0, m1, lo, num, s) && Replaces(m1, m2, lo, num, t)
    ensures Replaces(m0, m2, lo, num, t)
  {
  }

  lemma HalvesOf(m: seq<Sample>, m1: seq<Sample>, lo: nat, l: seq<Sample>, r: seq<Sample>, t: seq<Sample>)
    requires lo + |l| + |r| <= |m| && m[lo..lo + |l| + |r|] == l + r
    requires Replaces(m, m1, lo, |l|, t)
    ensures m[lo..lo + |l|] == l && m1[lo + |l|..lo + |l| + |r|] == r
  {
    var mid, hi := lo + |l|, lo + |l| + |r|;
    assert m[lo..mid] == m[lo..hi][..|l|];
    assert m[mid..hi] == m[lo..hi][|l|..];
    assert m1[mid..hi] == m1[mid..][..|r|] == m[mid..][..|r|];
  }

  /** The constructor of a node: grow the tree over samples[lo..lo + num], rearranging only that range. */
  method Build(samples: array<Sample>, lo: nat, num: nat, v: seq<real>, c: Config, rand: Random, ghost s: seq<Sample>)
    returns (node: Node)
    requires c.Valid() && |v| == c.outputs && lo + num <= samples.Length && samples[..][lo..lo + num] == s
    requires (num > 0 || c.leafSize > 0) && Supplies(rand, c.inputs)
    modifies samples
    ensures Replaces(old(samples[..]), samples[..], lo, num, Arranged(node, s))
    ensures node.lo == lo && Covers(node, s) && Grown(node, s, v, c) && BestSplits(node, rand, s, v, c)
    decreases num, 2
  {
    assert samples[lo..lo + num] == s;
    if num < c.leafSize {
      return Leaf(lo, num, false);
    }
    var total := SumOf(v);
    if total < NO_VARIANCE {
      return Leaf(lo, num, true);
    }
    var low, high := InputRange(samples, lo, num, c.inputs);
    FlatMeansSame(s, low, high);
    var varies := exists j :: 0 <= j < c.inputs && low[j] != high[j];
    if !varies {
      return Leaf(lo, num, false);
    }
    var draws, n := DrawSplits(samples[lo..lo + num], rand, low, high, c.splits);
    var best, k := FindSplit(samples, lo, num, v, low, high, draws);
    if best.None? {
      return Leaf(lo, num, false);
    }
    assert IsChoice(rand, s, v, c.splits, (best.attr, best.point), n, k);
    node := BuildSplit(samples, lo, num, v, best, c, rand, s);
  }

  /** Implement the chosen split and recurse. */
  method BuildSplit(samples: array<Sample>, lo: nat, num: nat, v: seq<real>, best: Best, c: Config, rand: Random,
                    ghost s: seq<Sample>)
    returns (node: Node)
    requires c.Valid() && |v| == c.outputs && lo + num <= samples.Length && samples[..][lo..lo + num] == s
    requires best.Some? && Describes(best, s, v, c.inputs) && num >= c.leafSize && Sum(v) >= NO_VARIANCE
    requires BestOf(rand, s, v, c.splits, (best.attr, best.point)) && Supplies(rand, c.inputs)
    modifies samples
    ensures Replaces(old(samples[..]), samples[..], lo, num, Arranged(node, s))
    ensures node.lo == lo && Covers(node, s) && Grown(node, s, v, c) && BestSplits(node, rand, s, v, c)
    decreases num, 1
  {
    ghost var m0 := samples[..];
    ghost var l, r := LeftOf(s, best.attr, best.point), RightOf(s, best.attr, best.point);
    SplitSizes(s, best.attr, best.point);
    assert samples[lo..lo + num] == s;
    Partition(samples, lo, num, best.attr, best.point, best.numL);
    ghost var m1 := samples[..];
    var left, right := BuildChildren(samples, lo, best, c, rand, l, r);
    node := Split(lo, num, best.attr, best.point, left, right);
    ReplaceTwice(m0, m1, samples[..], lo, num, l + r, Arranged(node, s));
    SplitIsGrown(node, best, s, v, c);
    SplitIsBest(node, best, rand, s, v, c);
  }

  lemma SplitIsGrown(node: Node, best: Best, s: seq<Sample>, v: seq<real>, c: Config)
    requires c.Valid() && |v| == c.outputs && best.Some? && Describes(best, s, v, c.inputs)
    requires |s| >= c.leafSize && Sum(v) >= NO_VARIANCE
    requires node.Split? && node.attr == best.attr && node.point == best.point && node.num == |s|
    requires best.numL + best.numR == |s| && node.left.lo == node.lo && node.right.lo == node.lo + best.numL
    requires Covers(node.left, LeftOf(s, best.attr, best.point)) && Covers(node.right, RightOf(s, best.attr, best.point))
    requires Grown(node.left, LeftOf(s, best.attr, best.point), best.varL, c)
    requires Grown(node.right, RightOf(s, best.attr, best.point), best.varR, c)
    ensures Covers(node, s) && Grown(node, s, v, c)
  {
  }

  lemma SplitIsBest(node: Node, best: Best, rand: Random, s: seq<Sample>, v: seq<real>, c: Config)
    requires c.Valid() && |v| == c.outputs && best.Some? && Describes(best, s, v, c.inputs)
    requires node.Split? && node.attr == best.attr && node.point == best.point
    requires BestOf(rand, s, v, c.splits, (best.attr, best.point))
    requires BestSplits(node.left, rand, LeftOf(s, best.attr, best.point), best.varL, c)
    requires BestSplits(node.right, rand, RightOf(s, best.attr, best.point), best.varR, c)
    ensures BestSplits(node, rand, s, v, c)
  {
  }

  /** The two recursive constructor calls. The second leaves the range of the first alone. */
  method BuildChildren(samples: array<Sample>, lo: nat, best: Best, c: Config, rand: Random,
                       ghost l: seq<Sample>, ghost r: seq<Sample>)
    returns (left: Node, right: Node)
    requires c.Valid() && best.Some? && |best.varL| == |best.varR| == c.outputs && Supplies(rand, c.inputs)
    requires best.numL == |l| > 0 && best.numR == |r| > 0
    requires lo + |l + r| <= samples.Length && samples[..][lo..lo + |l + r|] == l + r
    modifies samples
    ensures Replaces(old(samples[..]), samples[..], lo, |l + r|, Arranged(left, l) + Arranged(right, r))
    ensures left.lo == lo && Covers(left, l) && Grown(left, l, best.varL, c) && BestSplits(left, rand, l, best.varL, c)
    ensures right.lo == lo + |l| && Covers(right, r) && Grown(right, r, best.varR, c) &&
            BestSplits(right, rand, r, best.varR, c)
    decreases |l| + |r|, 0
  {
    ghost var m0 := samples[..];
    HalvesOf(m0, m0, lo, l, r, m0[lo..lo + |l|]);
    left := Build(samples, lo, best.numL, best.varL, c, rand, l);
    HalvesOf(m0, samples[..], lo, l, r, Arranged(left, l));
    right := BuildRight(samples, lo, best, c, rand, l, r, m0, Arranged(left, l));
  }

  /** The right child, with the left range arranged already. */
  method BuildRight(samples: array<Sample>, lo: nat, best: Best, c: Config, rand: Random,
                    ghost l: seq<Sample>, ghost r: seq<Sample>, ghost m0: seq<Sample>, ghost arranged: seq<Sample>)
    returns (right: Node)
    requires c.Valid() && best.Some? && |best.varR| == c.outputs && best.numL == |l| && best.numR == |r| > 0
    requires Supplies(rand, c.inputs)
    requires lo + |l| + |r| <= samples.Length && samples[..][lo + |l|..lo + |l| + |r|] == r
    requires Replaces(m0, samples[..], lo, |l|, arranged)
    modifies samples
    ensures Replaces(m0, samples[..], lo, |l| + |r|, arranged + Arranged(right, r))
    ensures right.lo == lo + |l| && Covers(right, r) && Grown(right, r, best.varR, c) &&
            BestSplits(right, rand, r, best.varR, c)
    decreases |r|, 3
  {
    ghost var m1 := samples[..];
    right := Build(samples, lo + best.numL, best.numR, best.varR, c, rand, r);
    ReplaceHalves(m0, m1, samples[..], lo, best.numL, best.numR, arranged, Arranged(right, r));
  }

  method SumOf(v: seq<real>) returns (e: real)
    ensures e == Sum(v)
  {
    e := 0.0;
    for ii := 0 to |v|
      invariant e == Sum(v[..ii])
    {
      assert v[..ii + 1] == v[..ii] + [v[ii]];
      SumsPush(v[..ii], v[ii], 0.0);
      e := e + v[ii];
    }
    assert v[..|v|] == v;
  }

  // ----- The tree and the projector -----

  /** `ERTree::variance`; an empty store divides by zero and its result is never looked at. */
  method StoreVariance(store: seq<Sample>, outputs: Outputs) returns (v: seq<real>)
    ensures |v| == outputs && (store != [] ==> v == Variances(store, outputs))
  {
    var zero := seq(outputs, j => 0.0);
    if store == [] {
      return zero;
    }
    var mean := zero;
    for ii := 0 to |store|
      invariant |mean| == outputs && Totals(mean, store[..ii])
    {
      var t := AddOutputs(mean, store[ii]);
      TotalsStep(mean, t, store[..ii], store[ii]);
      assert store[..ii + 1] == store[..ii] + [store[ii]];
      mean := t;
    }
    assert store[..|store|] == store;
    var total := mean;
    mean := Divide(total, |store|);
    DividedTotals(total, mean, store);
    v := zero;
    for ii := 0 to |store|
      invariant Spreads(v, zero, store[..ii], mean)
    {
      var t := AddSquares(v, store[ii], mean);
      SpreadsStep(v, t, zero, store[..ii], store[ii], mean);
      assert store[..ii + 1] == store[..ii] + [store[ii]];
      v := t;
    }
    assert store[..|store|] == store;
    var acc := v;
    v := Divide(acc, |store|);
    DividedSpreads(acc, v, zero, mean, store);
  }

  class ERTree {
    const samples: array<Sample>
    const root: Node
    ghost const store: seq<Sample>

    /** The tree indexes its store, and its constant leaves really have no variance. */
    ghost predicate Valid(c: Config)
      reads samples
    {
      && c.Valid() && Built(root, store, samples[..])
      && exists v :: |v| == c.outputs && Bounds(v, store) && Grown(root, store, v, c)
    }

    constructor (store: seq<Sample>, c: Config, v: seq<real>, rand: Random)
      requires c.Valid() && |v| == c.outputs && Bounds(v, store) && (store != [] || c.leafSize > 0) &&
               Supplies(rand, c.inputs)
      ensures Valid(c) && this.store == store && fresh(samples) && BestSplits(root, rand, store, v, c)
    {
      this.store := store;
      var copy := new Sample[|store|](i requires 0 <= i < |store| => store[i]);
      assert copy[..] == store;
      samples := copy;
      var node := Build(copy, 0, |store|, v, c, rand, store);
      root := node;
      CoversInRange(node, store, copy.Length);
      ArrangedIsPermutation(node, store);
    }

    method Read(query: seq<real>, ghost c: Config) returns (found: seq<Sample>)
      requires Valid(c) && |query| == MAX_COORDS
      ensures found == Answer(root, store, query)
    {
      found := ERTreeSpec.Read(root, samples[..], query);
      ReadIsLinearScan(root, store, samples[..], query);

    }
  }

  /** The concatenated answers of the first trees of a forest. */
  ghost function Answers(forest: seq<ERTree>, query: seq<real>): seq<Sample>
    requires |query| == MAX_COORDS
  {
    if forest == [] then []
    else
      var last := forest[|forest| - 1];
      Answers(forest[..|forest| - 1], query) + Answer(last.root, last.store, query)
  }

  lemma AnswersStep(forest: seq<ERTree>, ii: nat, query: seq<real>)
    requires ii < |forest| && |query| == MAX_COORDS
    ensures Answers(forest[..ii + 1], query) == Answers(forest[..ii], query) + Answer(forest[ii].root,
                                                                                      forest[ii].store, query)
  {
    assert forest[..ii + 1][..ii] == forest[..ii];
  }

  lemma {:induction false} AnswersContain(forest: seq<ERTree>, k: nat, query: seq<real>)
    requires k < |forest| && |query| == MAX_COORDS
    ensures multiset(Answer(forest[k].root, forest[k].store, query)) <= multiset(Answers(forest, query))
  {
    if k < |forest| - 1 {
      AnswersContain(forest[..|forest| - 1], k, query);
    }
  }

  lemma TreeFinds(t: ERTree, c: Config, query: seq<real>, x: Sample)
    requires t.Valid(c) && |query| == MAX_COORDS && x in t.store && SameQuery(x.inp, query, c.inputs)
    ensures Answer(t.root, t.store, query) != []
    ensures !LeafOf(t.root, query).constant ==> x in Answer(t.root, t.store, query)
  {
    var v :| |v| == c.outputs && Bounds(v, t.store) && Grown(t.root, t.store, v, c);
    ReadIsLinearScan(t.root, t.store, t.samples[..], query);
    StoredSampleIsFound(t.root, t.store, v, c, t.samples[..], x, query);
  }

  /** Every tree contributes the stored samples that have the projected input. */
  lemma ForestFinds(forest: seq<ERTree>, c: Config, input: seq<real>, t: ERTree, x: Sample)
    requires t in forest && t.Valid(c) && |input| == c.inputs && x in t.store && x.inp[..c.inputs] == input
    ensures Answers(forest, Pad(input)) != []
    ensures !LeafOf(t.root, Pad(input)).constant ==> x in Answers(forest, Pad(input))
  {
    var query := Pad(input);
    assert forall j :: 0 <= j < c.inputs ==> x.inp[j] == x.inp[..c.inputs][j];
    var k :| 0 <= k < |forest| && forest[k] == t;
    TreeFinds(t, c, query, x);
    AnswersContain(forest, k, query);
    var a := Answer(t.root, t.store, query);
    assert a[0] in multiset(a);
    assert x in a ==> x in multiset(a);
  }

  datatype Projected = BadParam | Neighbors(samples: seq<Sample>, weights: seq<real>)

  function Pad(q: seq<real>): (r: seq<real>)
    requires |q| <= MAX_COORDS
    ensures |r| == MAX_COORDS && r[..|q|] == q
  {
    q + seq(MAX_COORDS - |q|, i => 0.0)
  }

  /** Every tree has its best splits. */
  ghost predicate AllBest(forest: seq<ERTree>, rands: seq<Random>, store: seq<Sample>, v: seq<real>, c: Config)
    requires |v| <= MAX_COORDS
  {
    |forest| <= |rands| && forall k :: 0 <= k < |forest| ==> BestSplits(forest[k].root, rands[k], store, v, c)
  }

  lemma OneMoreBest(forest: seq<ERTree>, tree: ERTree, rands: seq<Random>, store: seq<Sample>, v: seq<real>, c: Config)
    requires |v| <= MAX_COORDS && AllBest(forest, rands, store, v, c) && |forest| < |rands|
    requires BestSplits(tree.root, rands[|forest|], store, v, c)
    ensures AllBest(forest + [tree], rands, store, v, c)
  {
  }

  class ERTreeProjector {
    var store: seq<Sample>
    var forest: seq<ERTree>
    var built: bool
    var indexed: nat
    const config: Config
    const trees: nat

    ghost predicate Valid()
      reads this, set t | t in forest :: t.samples
    {
      && config.Valid() && config.leafSize > 0 && indexed <= |store| && (!built ==> forest == [])
      && forall t :: t in forest ==> t.Valid(config) && t.store == store[..indexed]
    }

    constructor (config: Config, trees: nat)
      requires config.Valid() && config.leafSize > 0
      ensures Valid() && store == [] && !built
    {
      this.config, this.trees := config, trees;
      store, forest, built, indexed := [], [], false, 0;
    }

    method Push(sample: Sample)
      requires Valid()
      modifies this`store
      ensures Valid() && store == old(store) + [sample]
    {
      store := store + [sample];
    }

    /** Rebuild the forest over the samples that pruning keeps, each tree with its own random numbers. */
    method Reindex(kept: seq<Sample>, rands: seq<Random>)
      requires Valid() && |rands| == trees && forall ii :: 0 <= ii < trees ==> Supplies(rands[ii], config.inputs)
      modifies this
      ensures Valid() && store == kept && indexed == |kept| && built && |forest| == trees
      ensures kept != [] ==> AllBest(forest, rands, kept, Variances(kept, config.outputs), config)
    {
      var v := StoreVariance(kept, config.outputs);
      var newForest: seq<ERTree> := [];
      for ii := 0 to trees
        invariant |newForest| == ii
        invariant forall t :: t in newForest ==> t.Valid(config) && t.store == kept
        invariant AllBest(newForest, rands, kept, v, config)
      {
        var tree := new ERTree(kept, config, v, rands[ii]);
        OneMoreBest(newForest, tree, rands, kept, v, config);
        newForest := newForest + [tree];
      }
      store, forest, built, indexed := kept, newForest, true, |kept|;
      assert store[..indexed] == kept;
    }

    /** The leaf samples of every tree, in tree order, with unit weights; unindexed samples are not found. */
    method Project(query: seq<real>) returns (p: Projected)
      requires Valid()
      ensures p.BadParam? <==> built && |query| != config.inputs
      ensures p.Neighbors? ==> p.samples == (if built then Answers(forest, Pad(query)) else [])
      ensures p.Neighbors? ==> p.weights == seq(|p.samples|, i => 1.0)
    {
      if !built {
        return Neighbors([], []);
      }
      if |query| != config.inputs {
        return BadParam;
      }
      var padded := Pad(query);
      var neighbors: seq<Sample> := [];
      for ii := 0 to |forest|
        invariant neighbors == Answers(forest[..ii], padded)
      {
        AnswersStep(forest, ii, padded);
        var found := forest[ii].Read(padded, config);
        neighbors := neighbors + found;
      }
      assert forest[..|forest|] == forest;
      p := Neighbors(neighbors, seq(|neighbors|, i => 1.0));
    }
  }
}
