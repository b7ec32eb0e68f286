/** Running sums, extremes and histogram of a list of values. */
module StatisticsSpec {
  import opened Reals

  /** The last n values; all of them if there are fewer. */
  function Last(s: seq<real>, n: nat): seq<real> {
    if |s| <= n then s else s[|s| - n..]
  }

  /** A value enters a window of length n; the oldest one leaves a full window. */
  lemma WindowMoves(s: seq<real>, n: nat, x: real)
    requires n > 0
    ensures Last(s + [x], n) == (if |s| < n then s else s[|s| - n..][1..]) + [x]
    ensures Sum(Last(s + [x], n)) == Sum(Last(s, n)) - (if |s| < n then 0.0 else s[|s| - n]) + x
    ensures SumOfSquares(Last(s + [x], n)) ==
            SumOfSquares(Last(s, n)) - (if |s| < n then 0.0 else Square(s[|s| - n])) + Square(x)
  {
    var kept := if |s| < n then s else s[|s| - n..][1..];
    assert Last(s + [x], n) == kept + [x];
    SumsAdd(kept, [x]);
    assert [x][1..] == [];
  }

  /** Running sums over the window of length n, and shadow sums over the current cycle. */
  datatype Sums = Sums(avg: real, sqr: real, avgShd: real, sqrShd: real)

  ghost predicate SumsOf(sums: Sums, history: seq<real>, start: nat, n: nat) {
    && start <= |history|
    && sums.avg == Sum(Last(history, n)) && sums.sqr == SumOfSquares(Last(history, n))
    && sums.avgShd == Sum(history[start..]) && sums.sqrShd == SumOfSquares(history[start..])
  }

  function MovedSums(sums: Sums, oldest: real, value: real): Sums {
    Sums(sums.avg - oldest + value, sums.sqr - Square(oldest) + Square(value), sums.avgShd + value,
         sums.sqrShd + Square(value))
  }

  /** A value enters the current cycle. */
  lemma CycleMoves(history: seq<real>, start: nat, value: real)
    requires start <= |history|
    ensures Sum((history + [value])[start..]) == Sum(history[start..]) + value
    ensures SumOfSquares((history + [value])[start..]) == SumOfSquares(history[start..]) + Square(value)
  {
    assert (history + [value])[start..] == history[start..] + [value];
    SumsAdd(history[start..], [value]);
    assert [value][1..] == [];
  }

  lemma SumsMove(sums: Sums, history: seq<real>, start: nat, n: nat, oldest: real, value: real)
    requires SumsOf(sums, history, start, n) && n > 0
    requires oldest == if |history| < n then 0.0 else history[|history| - n]
    ensures SumsOf(MovedSums(sums, oldest, value), history + [value], start, n)
  {
    WindowMoves(history, n, value);
    CycleMoves(history, start, value);
    assert Square(0.0) == 0.0;
  }

  /** When the window is the cycle, the swap replaces the sums by equal ones. */
  lemma SwapChangesNothing(sums: Sums, history: seq<real>, start: nat, n: nat)
    requires SumsOf(sums, history, start, n) && Last(history, n) == history[start..]
    ensures sums.avgShd == sums.avg && sums.sqrShd == sums.sqr
    ensures SumsOf(Sums(sums.avgShd, sums.sqrShd, 0.0, 0.0), history, |history|, n)
  {
  }

  // ----- The circular buffer -----

  /**
   The buffer holds the current cycle, which starts at `start` in the history, and behind it the rest of the
   previous cycle, or zeros.
   */
  ghost predicate Holds(buffer: seq<real>, pos: nat, wrapped: bool, history: seq<real>, start: nat) {
    && start + pos == |history| && pos < |buffer|
    && (if wrapped then start >= |buffer| else start == 0)
    && (forall i :: 0 <= i < pos ==> buffer[i] == history[start + i])
    && (forall i :: pos <= i < |buffer| ==> buffer[i] == if wrapped then history[start - |buffer| + i] else 0.0)
  }

  /** The place of the next value holds the one that leaves the window. */
  lemma OldestIsNext(buffer: seq<real>, pos: nat, wrapped: bool, history: seq<real>, start: nat)
    requires Holds(buffer, pos, wrapped, history, start)
    ensures buffer[pos] == if |history| < |buffer| then 0.0 else history[|history| - |buffer|]
  {
  }

  lemma StillHolds(buffer: seq<real>, pos: nat, wrapped: bool, history: seq<real>, start: nat, value: real)
    requires Holds(buffer, pos, wrapped, history, start) && pos + 1 < |buffer|
    ensures Holds(buffer[pos := value], pos + 1, wrapped, history + [value], start)
  {
  }

  /** When a cycle is complete, the buffer holds just this cycle, and it is the window. */
  lemma HoldsAfterWrap(buffer: seq<real>, pos: nat, wrapped: bool, history: seq<real>, start: nat, value: real)
    requires Holds(buffer, pos, wrapped, history, start) && pos + 1 == |buffer|
    ensures Holds(buffer[pos := value], 0, true, history + [value], |history| + 1)
    ensures Last(history + [value], |buffer|) == (history + [value])[start..]
  {
  }

  /** The filled part of the buffer. */
  function Filled(buffer: seq<real>, pos: nat, wrapped: bool): seq<real>
    requires pos <= |buffer|
  {
    if wrapped then buffer else buffer[..pos]
  }

  /** The filled part of the buffer is the window, rotated. */
  lemma BufferIsRotated(buffer: seq<real>, pos: nat, wrapped: bool, history: seq<real>, start: nat)
    requires Holds(buffer, pos, wrapped, history, start)
    ensures var k, s := if wrapped then pos else 0, Filled(buffer, pos, wrapped);
            Last(history, |buffer|) == s[k..] + s[..k]
  {
    if wrapped {
      assert history[start..] == buffer[..pos];
      assert history[start - |buffer| + pos..start] == buffer[pos..];
    }
  }

  // ----- Mean and variance -----

  /** One step of expanding the squared deviations: x is the first value, the other sums are over n later ones. */
  lemma ExpandStep(x: real, m: real, sum: real, squares: real, n: real)
    ensures Square(x - m) + (squares - 2.0 * Times(m, sum) + Times(n, Square(m))) ==
            Square(x) + squares - 2.0 * Times(m, x + sum) + Times(n + 1.0, Square(m))
  {
    assert Times(x - m, x - m) == Times(x, x) - 2.0 * Times(m, x) + Times(m, m);
    assert Times(m, x + sum) == Times(m, x) + Times(m, sum);
    assert Times(n + 1.0, Square(m)) == Times(n, Square(m)) + Square(m);
  }

  lemma {:induction false} DeviationsExpand(s: seq<real>, m: real)
    ensures SquaredDeviations(s, m) == SumOfSquares(s) - 2.0 * Times(m, Sum(s)) + Times(|s| as real, Square(m))
  {
    if s != [] {
      DeviationsExpand(s[1..], m);
      ExpandStep(s[0], m, Sum(s[1..]), SumOfSquares(s[1..]), |s[1..]| as real);
      assert |s| as real == |s[1..]| as real + 1.0;
    }
  }

  lemma DivideOut(d: real, q: real, m: real, t: real, n: real)
    requires n > 0.0 && t == Times(m, n) && d == q - 2.0 * Times(m, t) + Times(n, Square(m))
    ensures d / n == q / n - Square(m)
  {
    assert Times(m, t) == Times(n, Square(m));
    assert d / n == q / n - Times(n, Square(m)) / n;
  }

  /** Mean square minus squared mean is the population variance, and not negative. */
  lemma VarianceFromSums(s: seq<real>)
    requires s != []
    ensures SumOfSquares(s) / |s| as real - Square(Sum(s) / |s| as real) == Variance(s) >= 0.0
  {
    DeviationsExpand(s, Mean(s));
    MeanTimesLength(Sum(s), |s| as real);
    DivideOut(SquaredDeviations(s, Mean(s)), SumOfSquares(s), Mean(s), Sum(s), |s| as real);
  }

  lemma Reciprocal(t: real, n: real)
    requires n != 0.0
    ensures Times(t, 1.0 / n) == t / n
  {
  }

  lemma MeanTimesLength(t: real, n: real)
    requires n > 0.0
    ensures t == Times(t / n, n)
  {
  }

  // ----- Extremes -----

  function Smallest(s: seq<real>, limit: real): real {
    if s == [] then limit
    else if s[|s| - 1] < Smallest(s[..|s| - 1], limit) then s[|s| - 1]
    else Smallest(s[..|s| - 1], limit)
  }

  function Largest(s: seq<real>, limit: real): real {
    if s == [] then limit
    else if s[|s| - 1] > Largest(s[..|s| - 1], limit) then s[|s| - 1]
    else Largest(s[..|s| - 1], limit)
  }

  ghost predicate ExtremesOf(min: real, max: real, history: seq<real>, limit: real) {
    min == Smallest(history, limit) && max == Largest(history, -limit)
  }

  lemma ExtremesMove(min: real, max: real, history: seq<real>, limit: real, value: real)
    requires ExtremesOf(min, max, history, limit)
    ensures ExtremesOf(if value < min then value else min, if value > max then value else max, history + [value], limit)
  {
    assert (history + [value])[..|history|] == history;
  }

  // ----- The whole state -----

  /** The fields of the statistics, with all values since the last clear and where among them the current cycle starts. */
  datatype Stat = Stat(buffer: seq<real>, pos: nat, wrapped: bool, sums: Sums, min: real, max: real,
                       history: seq<real>, start: nat)

  /** Buffer, sums and extremes all belong to the history. */
  ghost predicate Consistent(s: Stat, limit: real) {
    && Holds(s.buffer, s.pos, s.wrapped, s.history, s.start) && SumsOf(s.sums, s.history, s.start, |s.buffer|)
    && ExtremesOf(s.min, s.max, s.history, limit)
  }

  /** The value replaces the oldest one in the buffer and in the sums. */
  function Stored(s: Stat, value: real): Stat
    requires s.pos < |s.buffer|
  {
    Stat(s.buffer[s.pos := value], s.pos + 1, s.wrapped, MovedSums(s.sums, s.buffer[s.pos], value),
         if value < s.min then value else s.min, if value > s.max then value else s.max, s.history + [value], s.start)
  }

  /** A new cycle begins, with the shadow sums. */
  function Wrapped(s: Stat): Stat {
    s.(pos := 0, wrapped := true, sums := Sums(s.sums.avgShd, s.sums.sqrShd, 0.0, 0.0), start := |s.history|)
  }

  function Added(s: Stat, value: real): Stat
    requires s.pos < |s.buffer|
  {
    var t := Stored(s, value);
    if t.pos >= |s.buffer| then Wrapped(t) else t
  }

  lemma StoreMovesSums(s: Stat, value: real)
    requires Holds(s.buffer, s.pos, s.wrapped, s.history, s.start) && SumsOf(s.sums, s.history, s.start, |s.buffer|)
    ensures SumsOf(MovedSums(s.sums, s.buffer[s.pos], value), s.history + [value], s.start, |s.buffer|)
  {
    OldestIsNext(s.buffer, s.pos, s.wrapped, s.history, s.start);
    SumsMove(s.sums, s.history, s.start, |s.buffer|, s.buffer[s.pos], value);
  }

  lemma StoreKeeps(s: Stat, limit: real, value: real)
    requires Consistent(s, limit) && s.pos + 1 < |s.buffer|
    ensures Consistent(Stored(s, value), limit)
  {
    StoreMovesSums(s, value);
    ExtremesMove(s.min, s.max, s.history, limit, value);
    StillHolds(s.buffer, s.pos, s.wrapped, s.history, s.start, value);
  }

  lemma WrapKeeps(s: Stat, limit: real, value: real)
    requires Consistent(s, limit) && s.pos + 1 == |s.buffer|
    ensures Consistent(Wrapped(Stored(s, value)), limit)
  {
    StoreMovesSums(s, value);
    ExtremesMove(s.min, s.max, s.history, limit, value);
    HoldsAfterWrap(s.buffer, s.pos, s.wrapped, s.history, s.start, value);
    SwapChangesNothing(MovedSums(s.sums, s.buffer[s.pos], value), s.history + [value], s.start, |s.buffer|);
  }

  /** After every value the state belongs to the longer history. */
  lemma AddKeeps(s: Stat, limit: real, value: real)
    requires Consistent(s, limit)
    ensures Consistent(Added(s, value), limit)
  {
    if s.pos + 1 < |s.buffer| {
      StoreKeeps(s, limit, value);
    } else {
      WrapKeeps(s, limit, value);
    }
  }

  /** Values that a double holds. */
  predicate Limited(s: seq<real>, limit: real) {
    forall i :: 0 <= i < |s| ==> -limit <= s[i] <= limit
  }

  /** The extremes bound all values and are values, once a value inside the limits is there. */
  lemma {:induction false} ExtremesAreValues(s: seq<real>, limit: real)
    requires Limited(s, limit)
    ensures forall x :: x in s ==> Smallest(s, limit) <= x <= Largest(s, -limit)
    ensures -limit <= limit ==> Smallest(s, limit) <= limit && Largest(s, -limit) >= -limit
    ensures s != [] ==> Smallest(s, limit) in s && Largest(s, -limit) in s
  {
    if |s| == 1 {
      assert s[..0] == [];
      assert s[0] in s;
    } else if |s| > 1 {
      var t := s[..|s| - 1];
      assert s == t + [s[|s| - 1]];
      ExtremesAreValues(t, limit);
    }
  }

  // ----- Histogram -----

  /** The bin of a value; values outside the range go to the first or last bin. */
  function Bin(x: real, minVal: real, binSize: real, numBins: nat): (b: nat)
    requires binSize != 0.0 && numBins > 0
    ensures b < numBins
  {
    var index := ((x - minVal) / binSize).Floor;
    if index < 0 then 0 else if index > numBins - 1 then numBins - 1 else index
  }

  /** The lower edge of a bin. */
  function Edge(b: int, minVal: real, binSize: real): real {
    minVal + Times(b as real, binSize)
  }

  /** A value inside the range lies between the edges of its bin; the outer bins take what is outside. */
  lemma BinHoldsValue(x: real, minVal: real, binSize: real, numBins: nat)
    requires binSize > 0.0 && numBins > 0
    ensures var b := Bin(x, minVal, binSize, numBins);
            && (minVal <= x < Edge(numBins, minVal, binSize) ==> Edge(b, minVal, binSize) <= x < Edge(b + 1, minVal, binSize))
            && (x < minVal ==> b == 0)
            && (x >= Edge(numBins, minVal, binSize) ==> b == numBins - 1)
  {
    var q := (x - minVal) / binSize;
    assert Times(q, binSize) == x - minVal;
    InBin(q, q.Floor, binSize);
    EdgeOrder(q, numBins, binSize);
    EdgeOrder(q, 0, binSize);
  }

  lemma InBin(q: real, b: int, size: real)
    requires size > 0.0 && b as real <= q < (b + 1) as real
    ensures Times(b as real, size) <= Times(q, size) < Times((b + 1) as real, size)
  {
    EdgeOrder(q, b, size);
    EdgeOrder(q, b + 1, size);
  }

  lemma EdgeOrder(q: real, b: int, size: real)
    requires size > 0.0
    ensures q < b as real <==> Times(q, size) < Times(b as real, size)
  {
    assert Times(b as real, size) - Times(q, size) == (b as real - q) * size;
  }

  function Count(s: seq<real>, b: nat, minVal: real, binSize: real, numBins: nat): nat
    requires binSize != 0.0 && numBins > 0
  {
    if s == [] then 0
    else (if Bin(s[0], minVal, binSize, numBins) == b then 1 else 0) + Count(s[1..], b, minVal, binSize, numBins)
  }

  lemma {:induction false} CountsAdd(s: seq<real>, t: seq<real>, b: nat, minVal: real, binSize: real, numBins: nat)
    requires binSize != 0.0 && numBins > 0
    ensures Count(s + t, b, minVal, binSize, numBins) ==
            Count(s, b, minVal, binSize, numBins) + Count(t, b, minVal, binSize, numBins)
  {
    if s == [] {
      assert s + t == t;
    } else {
      assert (s + t)[1..] == s[1..] + t;
      CountsAdd(s[1..], t, b, minVal, binSize, numBins);
    }
  }

  lemma CountsRotate(s: seq<real>, k: nat, b: nat, minVal: real, binSize: real, numBins: nat)
    requires binSize != 0.0 && numBins > 0 && k <= |s|
    ensures Count(s[k..] + s[..k], b, minVal, binSize, numBins) == Count(s, b, minVal, binSize, numBins)
  {
    CountsAdd(s[k..], s[..k], b, minVal, binSize, numBins);
    CountsAdd(s[..k], s[k..], b, minVal, binSize, numBins);
    assert s == s[..k] + s[k..];
  }

  lemma CountNext(s: seq<real>, i: nat, b: nat, minVal: real, binSize: real, numBins: nat)
    requires binSize != 0.0 && numBins > 0 && i < |s|
    ensures Count(s[..i + 1], b, minVal, binSize, numBins) ==
            Count(s[..i], b, minVal, binSize, numBins) + (if Bin(s[i], minVal, binSize, numBins) == b then 1 else 0)
  {
    assert s[..i + 1] == s[..i] + [s[i]];
    assert [s[i]][1..] == [];
    CountsAdd(s[..i], [s[i]], b, minVal, binSize, numBins);
  }

  function Total(bins: seq<int>): int {
    if bins == [] then 0 else bins[0] + Total(bins[1..])
  }

  lemma {:induction false} OneMore(bins: seq<int>, b: nat)
    requires b < |bins|
    ensures Total(bins[b := bins[b] + 1]) == Total(bins) + 1
  {
    if b > 0 {
      assert bins[b := bins[b] + 1][1..] == bins[1..][b - 1 := bins[b] + 1];
      OneMore(bins[1..], b - 1);
    }
  }

  lemma {:induction false} NoneCounted(bins: seq<int>)
    requires forall b :: 0 <= b < |bins| ==> bins[b] == 0
    ensures Total(bins) == 0
  {
    if bins != [] {
      NoneCounted(bins[1..]);
    }
  }

  /** The bins count the values, and every value is in one bin. */
  ghost predicate Counted(bins: seq<int>, s: seq<real>, minVal: real, binSize: real)
    requires binSize != 0.0 && bins != []
  {
    && Total(bins) == |s|
    && (forall b :: 0 <= b < |bins| ==> bins[b] == Count(s, b, minVal, binSize, |bins|))
  }

  lemma CountedNext(bins: seq<int>, s: seq<real>, i: nat, minVal: real, binSize: real)
    requires binSize != 0.0 && bins != [] && i < |s|
    requires Counted(bins, s[..i], minVal, binSize)
    ensures var b := Bin(s[i], minVal, binSize, |bins|);
            Counted(bins[b := bins[b] + 1], s[..i + 1], minVal, binSize)
  {
    OneMore(bins, Bin(s[i], minVal, binSize, |bins|));
    forall b | 0 <= b < |bins|
      ensures Count(s[..i + 1], b, minVal, binSize, |bins|) ==
              bins[b] + if b == Bin(s[i], minVal, binSize, |bins|) then 1 else 0
    {
      CountNext(s, i, b, minVal, binSize, |bins|);
    }
  }

  lemma CountedRotated(bins: seq<int>, s: seq<real>, k: nat, minVal: real, binSize: real)
    requires binSize != 0.0 && bins != [] && k <= |s|
    requires Counted(bins, s, minVal, binSize)
    ensures Counted(bins, s[k..] + s[..k], minVal, binSize)
  {
    forall b | 0 <= b < |bins|
      ensures bins[b] == Count(s[k..] + s[..k], b, minVal, binSize, |bins|)
    {
      CountsRotate(s, k, b, minVal, binSize, |bins|);
    }
  }
}
