/** Sums, mean and variance of lists of real numbers. */
module Reals {

  function Times(x: real, y: real): real {
    x * y
  }

  function Quotient(x: real, y: real): real
    requires y != 0.0
  {
    x / y
  }

  function Square(x: real): (r: real)
    ensures r >= 0.0
  {
    Times(x, x)
  }

  lemma TimesIsPositive(x: real, y: real)
    requires x > 0.0 && y > 0.0
    ensures Times(x, y) > 0.0
  {
  }

  lemma NegativeSquare(x: real)
    ensures Square(-x) == Square(x)
  {
  }

  lemma SquareIsPositive(x: real)
    ensures Square(x) > 0.0 <==> x != 0.0
  {
    NegativeSquare(x);
    if x > 0.0 {
      TimesIsPositive(x, x);
    } else if x < 0.0 {
      TimesIsPositive(-x, -x);
    }
  }

  function Sum(s: seq<real>): real {
    if s == [] then 0.0 else s[0] + Sum(s[1..])
  }

  function SumOfSquares(s: seq<real>): (r: real)
    ensures r >= 0.0
  {
    if s == [] then 0.0 else Square(s[0]) + SumOfSquares(s[1..])
  }

  lemma {:induction false} SumsAdd(a: seq<real>, b: seq<real>)
    ensures Sum(a + b) == Sum(a) + Sum(b)
    ensures SumOfSquares(a + b) == SumOfSquares(a) + SumOfSquares(b)
  {
    if a == [] {
      assert a + b == b;
    } else {
      assert (a + b)[1..] == a[1..] + b;
      SumsAdd(a[1..], b);
    }
  }

  function Mean(s: seq<real>): real {
    if s == [] then 0.0 else Sum(s) / |s| as real
  }

  function SquaredDeviations(s: seq<real>, m: real): (r: real)
    ensures r >= 0.0
  {
    if s == [] then 0.0 else Square(s[0] - m) + SquaredDeviations(s[1..], m)
  }

  /** The population variance. */
  function Variance(s: seq<real>): (r: real) {
    if s == [] then 0.0 else SquaredDeviations(s, Mean(s)) / |s| as real
  }

  lemma SumsPush(s: seq<real>, x: real, m: real)
    ensures Sum(s + [x]) == Sum(s) + x
    ensures SumOfSquares(s + [x]) == SumOfSquares(s) + Square(x)
    ensures SquaredDeviations(s + [x], m) == SquaredDeviations(s, m) + Square(x - m)
  {
    SumsAdd(s, [x]);
    DeviationsPush(s, x, m);
    assert [x][1..] == [];
  }

  lemma {:induction false} DeviationsPush(s: seq<real>, x: real, m: real)
    ensures SquaredDeviations(s + [x], m) == SquaredDeviations(s, m) + Square(x - m)
  {
    if s == [] {
      assert [] + [x] == [x] && [x][1..] == [];
    } else {
      assert (s + [x])[1..] == s[1..] + [x];
      DeviationsPush(s[1..], x, m);
    }
  }
}
