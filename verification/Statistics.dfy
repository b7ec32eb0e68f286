/** Sliding-window statistics over a circular buffer (base/src/statistics.cpp, CSimpleStat). */
module Statistics {
  import opened Reals
  import opened StatisticsSpec

  class CSimpleStat {
    var sampleBuffer: array<real>
    var bufPos: nat
    var avgSum: real
    var sqrSum: real
    var avgSumShd: real
    var sqrSumShd: real
    var min: real
    var max: real
    var hasWrapped: bool
    /** The largest double, from which the extremes start. */
    const limit: real
    /** All values since the last clear, and where in them the current cycle through the buffer starts. */
    ghost var history: seq<real>
    ghost var start: nat

    /** The values the statistics are about. */
    ghost function Window(): (w: seq<real>)
      reads this, sampleBuffer
      ensures |w| <= sampleBuffer.Length
    {
      Last(history, sampleBuffer.Length)
    }

    /** All fields at once. */
    ghost function State(): Stat
      reads this, sampleBuffer
    {
      Stat(sampleBuffer[..], bufPos, hasWrapped, CurrentSums(), min, max, history, start)
    }

    function CurrentSums(): Sums
      reads this
    {
      Sums(avgSum, sqrSum, avgSumShd, sqrSumShd)
    }

    ghost predicate Valid()
      reads this, sampleBuffer
    {
      Consistent(State(), limit)
    }

    constructor (length: nat, limit: real)
      requires length > 0
      ensures Valid() && fresh(sampleBuffer) && sampleBuffer.Length == length && history == [] && this.limit == limit
    {
      sampleBuffer := new real[length](_ => 0.0);
      bufPos, hasWrapped, history, start := 0, false, [], 0;
      avgSum, sqrSum, avgSumShd, sqrSumShd := 0.0, 0.0, 0.0, 0.0;
      this.limit, min, max := limit, limit, -limit;
    }

    method SetBufferLength(length: nat)
      requires length > 0
      modifies this
      ensures Valid() && fresh(sampleBuffer) && sampleBuffer.Length == length && history == []
    {
      sampleBuffer := new real[length];
      Clear();
    }

    method Clear()
      requires sampleBuffer.Length > 0
      modifies this, sampleBuffer
      ensures Valid() && sampleBuffer == old(sampleBuffer) && history == []
    {
      forall i | 0 <= i < sampleBuffer.Length {
        sampleBuffer[i] := 0.0;
      }
      bufPos, hasWrapped, history, start := 0, false, [], 0;
      avgSum, sqrSum, avgSumShd, sqrSumShd := 0.0, 0.0, 0.0, 0.0;
      min, max := limit, -limit;
    }

    method AddValue(value: real)
      requires Valid()
      modifies this, sampleBuffer
      ensures Valid() && sampleBuffer == old(sampleBuffer) && State() == Added(old(State()), value)
      ensures history == old(history) + [value]
    {
      AddKeeps(State(), limit, value);
      Store(value);
      if bufPos >= sampleBuffer.Length {
        Wrap();
      }
    }

    /** Everything but the start of a new cycle. */
    method Store(value: real)
      requires bufPos < sampleBuffer.Length
      modifies this, sampleBuffer
      ensures sampleBuffer == old(sampleBuffer) && State() == Stored(old(State()), value)
    {
      UpdateSums(value);
      sampleBuffer[bufPos] := value;
      history := history + [value];
      UpdateExtremes(value);
      bufPos := bufPos + 1;
      assert sampleBuffer[..] == old(sampleBuffer[..])[old(bufPos) := value];
    }

    /** The oldest value of the window leaves the sums and the new one enters them. */
    method UpdateSums(value: real)
      requires bufPos < sampleBuffer.Length
      modifies `avgSum, `sqrSum, `avgSumShd, `sqrSumShd
      ensures CurrentSums() == MovedSums(old(CurrentSums()), sampleBuffer[bufPos], value)
    {
      avgSum := avgSum - sampleBuffer[bufPos];
      sqrSum := sqrSum - Square(sampleBuffer[bufPos]);
      avgSum := avgSum + value;
      avgSumShd := avgSumShd + value;
      var sqrNewVal := Square(value);
      sqrSum := sqrSum + sqrNewVal;
      sqrSumShd := sqrSumShd + sqrNewVal;
    }

    method UpdateExtremes(value: real)
      modifies `min, `max
      ensures min == (if value < old(min) then value else old(min)) && max == if value > old(max) then value else old(max)
    {
      if value < min {
        min := value;
      }
      if value > max {
        max := value;
      }
    }

    /** The buffer is full: start again at its front, with the shadow sums. */
    method Wrap()
      modifies this
      ensures sampleBuffer == old(sampleBuffer) && State() == Wrapped(old(State()))
    {
      bufPos := 0;
      hasWrapped := true;
      avgSum := avgSumShd;
      sqrSum := sqrSumShd;
      avgSumShd := 0.0;
      sqrSumShd := 0.0;
      start := |history|;
    }

    /** Number of values in the window. */
    function GetNumValues(): (n: nat)
      requires Valid()
      reads this, sampleBuffer
      ensures n == |Window()|
    {
      if hasWrapped then sampleBuffer.Length else bufPos
    }

    function GetAverage(): (r: real)
      requires Valid()
      reads this, sampleBuffer
      ensures r == Mean(Window())
    {
      if hasWrapped then avgSum / sampleBuffer.Length as real
      else avgSum / (if bufPos > 1 then bufPos else 1) as real
    }

    function GetVariance(): (r: real)
      requires Valid()
      reads this, sampleBuffer
      ensures r == Variance(Window()) && r >= 0.0
    {
      var n := (if hasWrapped then sampleBuffer.Length else if bufPos > 1 then bufPos else 1) as real;
      var oneOverN := 1.0 / n;
      Reciprocal(avgSum, n);
      Reciprocal(sqrSum, n);
      assert Window() != [] ==> SumOfSquares(Window()) / |Window()| as real -
                                Square(Sum(Window()) / |Window()| as real) == Variance(Window()) >= 0.0
        by { if Window() != [] { VarianceFromSums(Window()); } }
      var avgSumOverN := Times(avgSum, oneOverN);
      Times(sqrSum, oneOverN) - Square(avgSumOverN)
    }

    /** The smallest of all values since the last clear, and the largest double while there is none. */
    function GetMinimum(): (r: real)
      requires Valid()
      reads this, sampleBuffer
      ensures history == [] ==> r == limit
      ensures history != [] && Limited(history, limit) ==> r in history && forall x :: x in history ==> r <= x
    {
      assert Limited(history, limit) && history != [] ==> min in history && forall x :: x in history ==> min <= x
        by { if Limited(history, limit) { ExtremesAreValues(history, limit); } }
      min
    }

    function GetMaximum(): (r: real)
      requires Valid()
      reads this, sampleBuffer
      ensures history == [] ==> r == -limit
      ensures history != [] && Limited(history, limit) ==> r in history && forall x :: x in history ==> x <= r
    {
      assert Limited(history, limit) && history != [] ==> max in history && forall x :: x in history ==> x <= max
        by { if Limited(history, limit) { ExtremesAreValues(history, limit); } }
      max
    }

    /** Counts the first values of the buffer into the bins. */
    method CountSamples(bins: array<int>, numSamples: nat, minVal: real, binSize: real)
      requires numSamples <= sampleBuffer.Length && bins.Length > 0 && binSize != 0.0
      modifies bins
      ensures Counted(bins[..], sampleBuffer[..numSamples], minVal, binSize)
    {
      forall iBin | 0 <= iBin < bins.Length {
        bins[iBin] := 0;
      }
      NoneCounted(bins[..]);
      ghost var samples := sampleBuffer[..numSamples];
      for iSample := 0 to numSamples
        invariant Counted(bins[..], samples[..iSample], minVal, binSize)
      {
        CountedNext(bins[..], samples, iSample, minVal, binSize);
        var binIndex := Bin(sampleBuffer[iSample], minVal, binSize, bins.Length);
        bins[binIndex] := bins[binIndex] + 1;
      }
      assert samples[..numSamples] == samples;
    }

    method GetHistogram(bins: array<int>, minVal: real, maxVal: real)
      requires Valid() && bins.Length > 0 && minVal != maxVal
      modifies bins
      ensures Valid() && Window() == old(Window())
      ensures var binSize := (maxVal - minVal) / bins.Length as real;
              binSize != 0.0 && Counted(bins[..], Window(), minVal, binSize)
    {
      var numSamples := GetNumValues();
      var binSize := (maxVal - minVal) / bins.Length as real;
      ghost var samples, k, window := sampleBuffer[..numSamples], if hasWrapped then bufPos else 0, Window();
      BufferIsRotated(sampleBuffer[..], bufPos, hasWrapped, history, start);
      assert samples == Filled(sampleBuffer[..], bufPos, hasWrapped);
      CountSamples(bins, numSamples, minVal, binSize);
      CountedRotated(bins[..], samples, k, minVal, binSize);
    }
  }
}
