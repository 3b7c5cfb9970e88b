/** Per-thread execution times, folded one by one into minimum, maximum and mean.
  *
  * The mean, a double in the runtime, is a real here.
  */
module ExecutionStatistics {
  import opened MachineIntegers

  datatype Statistics = Statistics(minimum: Uint64, maximum: Uint64, mean: real, counter: Uint64)

  /** The mean after one more measurement. */
  function NextMean(mean: real, count: nat, time: nat): real {
    mean + (time as real - mean) / (count as real + 1.0)
  }

  function Fold(s: Statistics, time: Uint64): Statistics {
    Statistics(
      if time < s.minimum then time else s.minimum,
      if time > s.maximum then time else s.maximum,
      NextMean(s.mean, s.counter, time),
      (s.counter + 1) % TWO_64)
  }

  function FoldAll(s: Statistics, times: seq<Uint64>): Statistics {
    if times == [] then s else Fold(FoldAll(s, times[..|times| - 1]), times[|times| - 1])
  }

  lemma FoldOneMore(s: Statistics, times: seq<Uint64>, time: Uint64)
    ensures FoldAll(s, times + [time]) == Fold(FoldAll(s, times), time)
  {
    assert (times + [time])[..|times + [time]| - 1] == times;
  }

  class ThreadInfo {
    var executionTime: Uint64
    var minimum: Uint64
    var maximum: Uint64
    var mean: real
    var counter: Uint64
    ghost const initial: Statistics
    /** The measurements folded so far. */
    ghost var times: seq<Uint64>

    ghost predicate Valid()
      reads this
    {
      initial.counter == 0 && State() == FoldAll(initial, times)
    }

    function State(): Statistics
      reads this
    {
      Statistics(minimum, maximum, mean, counter)
    }

    constructor (minimum: Uint64, maximum: Uint64, mean: real)
      ensures Valid() && State() == initial == Statistics(minimum, maximum, mean, 0) && times == []
    {
      this.minimum, this.maximum, this.mean := minimum, maximum, mean;
      executionTime, counter := 0, 0;
      initial, times := Statistics(minimum, maximum, mean, 0), [];
    }

    method UpdateExecutionTimeData(time: Uint64)
      requires Valid()
      modifies this`minimum, this`maximum, this`mean, this`counter, this`times
      ensures Valid() && times == old(times) + [time]
      ensures State() == Fold(old(State()), time)
    {
      ghost var before := State();
      if time < minimum {
        minimum := time;
      }
      if time > maximum {
        maximum := time;
      }
      mean := NextMean(mean, counter, time);
      counter := (counter + 1) % TWO_64;
      assert State() == Fold(before, time);
      FoldOneMore(initial, times, time);
      times := times + [time];
    }

    /** Monitor_GetUsageData: the mean with its fraction dropped is the integer average of everything measured. */
    method GetUsageData() returns (maximumTime: Uint64, minimumTime: Uint64, averageTime: int)
      requires Valid()
      ensures 0 < |times| < TWO_64 ==> averageTime == Sum(times) / |times| && minimumTime <= averageTime <= maximumTime
      ensures forall i :: 0 <= i < |times| ==> minimumTime <= times[i] <= maximumTime
      ensures minimumTime == initial.minimum || minimumTime in times
      ensures maximumTime == initial.maximum || maximumTime in times
    {
      ExtremesOfHistory(initial, times);
      if 0 < |times| < TWO_64 {
        ReportedAverage(initial, times);
        MeanBetweenExtremes(initial, times);
      }
      return maximum, minimum, mean.Floor;
    }
  }

  // ----- Batch statistics -----

  function Sum(times: seq<Uint64>): nat {
    if times == [] then 0 else Sum(times[..|times| - 1]) + times[|times| - 1]
  }

  lemma {:induction false} CounterCounts(s: Statistics, times: seq<Uint64>)
    requires s.counter == 0 && |times| < TWO_64
    ensures FoldAll(s, times).counter == |times|
  {
    if times != [] { CounterCounts(s, times[..|times| - 1]); }
  }

  predicate IsAverage(mean: real, n: nat, sum: nat) {
    mean * n as real == sum as real
  }

  lemma {:induction false} MeanTimesCount(s: Statistics, times: seq<Uint64>)
    requires s.counter == 0 && 0 < |times| < TWO_64
    ensures IsAverage(FoldAll(s, times).mean, |times|, Sum(times))
  {
    var n := |times| - 1;
    var front := times[..n];
    CounterCounts(s, front);
    if n == 0 {
      FirstMean(s.mean, times[0]);
    } else {
      MeanTimesCount(s, front);
      MeanStep(FoldAll(s, front).mean, n, Sum(front), times[n]);
    }
  }

  lemma FirstMean(m: real, x: nat)
    ensures IsAverage(NextMean(m, 0, x), 1, x)
  {
  }

  lemma MeanStep(m: real, n: nat, sum: nat, x: nat)
    requires IsAverage(m, n, sum)
    ensures IsAverage(NextMean(m, n, x), n + 1, sum + x)
  {
  }

  /** Streaming mean: after n measurements, the sum divided by n, whatever the initial mean. */
  lemma MeanIsAverage(s: Statistics, times: seq<Uint64>)
    requires s.counter == 0 && 0 < |times| < TWO_64
    ensures FoldAll(s, times).mean == Sum(times) as real / |times| as real
  {
    MeanTimesCount(s, times);
    Quotient(FoldAll(s, times).mean, |times|, Sum(times));
  }

  /** The reported average is the integer quotient of the sum by the count. */
  lemma ReportedAverage(s: Statistics, times: seq<Uint64>)
    requires s.counter == 0 && 0 < |times| < TWO_64
    ensures FoldAll(s, times).mean.Floor == Sum(times) / |times|
  {
    MeanTimesCount(s, times);
    FloorQuotient(FoldAll(s, times).mean, |times|, Sum(times));
  }

  lemma FloorQuotient(mean: real, n: nat, sum: nat)
    requires n > 0 && IsAverage(mean, n, sum)
    ensures mean.Floor == sum / n
  {
    var k := sum / n;
    DivideBounds(sum, n);
    AverageAbove(mean, n, sum, k);
    AverageUnder(mean, n, sum, k + 1);
  }

  lemma AverageUnder(mean: real, n: nat, sum: nat, high: nat)
    requires n > 0 && IsAverage(mean, n, sum) && sum < high * n
    ensures mean < high as real
  {
    RealProduct(high, n);
    if mean >= high as real { HeavierOrEqual(mean, high as real, n as real); }
  }

  lemma HeavierOrEqual(a: real, b: real, n: real)
    requires a >= b && n > 0.0
    ensures a * n >= b * n
  {
  }

  lemma Quotient(q: real, n: nat, p: nat)
    requires n > 0 && IsAverage(q, n, p)
    ensures q == p as real / n as real
  {
  }

  /** Streaming minimum and maximum: the extremes of the history joined with the initial values. */
  lemma {:induction false} ExtremesOfHistory(s: Statistics, times: seq<Uint64>)
    ensures var r := FoldAll(s, times);
            && (r.minimum == s.minimum || r.minimum in times) && r.minimum <= s.minimum
            && (r.maximum == s.maximum || r.maximum in times) && r.maximum >= s.maximum
            && forall i :: 0 <= i < |times| ==> r.minimum <= times[i] <= r.maximum
  {
    if times != [] {
      var front := times[..|times| - 1];
      ExtremesOfHistory(s, front);
      assert forall i :: 0 <= i < |front| ==> front[i] == times[i];
    }
  }

  lemma {:induction false} SumBounds(times: seq<Uint64>, low: nat, high: nat)
    requires forall i :: 0 <= i < |times| ==> low <= times[i] <= high
    ensures low * |times| <= Sum(times) <= high * |times|
  {
    if times != [] {
      var n := |times| - 1;
      SumBounds(times[..n], low, high);
      OneMore(low, n);
      OneMore(high, n);
    }
  }

  lemma OneMore(a: nat, n: nat)
    ensures a * (n + 1) == a * n + a
  {
  }

  /** The minimum never exceeds the mean, nor the mean the maximum, and so for the reported integer average. */
  lemma MeanBetweenExtremes(s: Statistics, times: seq<Uint64>)
    requires s.counter == 0 && 0 < |times| < TWO_64
    ensures var r := FoldAll(s, times);
            && r.minimum as real <= r.mean <= r.maximum as real
            && r.minimum <= r.mean.Floor <= r.maximum
  {
    var r := FoldAll(s, times);
    ExtremesOfHistory(s, times);
    SumBounds(times, r.minimum, r.maximum);
    MeanTimesCount(s, times);
    AverageBounds(r.mean, |times|, Sum(times), r.minimum, r.maximum);
  }

  lemma AverageBounds(mean: real, n: nat, sum: nat, low: nat, high: nat)
    requires n > 0 && IsAverage(mean, n, sum) && low * n <= sum <= high * n
    ensures low as real <= mean <= high as real && low <= mean.Floor <= high
  {
    AverageAbove(mean, n, sum, low);
    AverageBelow(mean, n, sum, high);
  }

  lemma AverageAbove(mean: real, n: nat, sum: nat, low: nat)
    requires n > 0 && IsAverage(mean, n, sum) && low * n <= sum
    ensures low as real <= mean
  {
    RealProduct(low, n);
    if mean < low as real { Heavier(low as real, mean, n as real); }
  }

  lemma AverageBelow(mean: real, n: nat, sum: nat, high: nat)
    requires n > 0 && IsAverage(mean, n, sum) && sum <= high * n
    ensures mean <= high as real
  {
    RealProduct(high, n);
    if mean > high as real { Heavier(mean, high as real, n as real); }
  }

  lemma Heavier(a: real, b: real, n: real)
    requires a > b && n > 0.0
    ensures a * n > b * n
  {
  }

  /** The minimum reported is that of the measurements exactly when the initial value is no smaller than some
    * measurement; starting from zero it stays zero. */
  lemma MinimumIsMeasuredIff(s: Statistics, times: seq<Uint64>)
    requires |times| > 0
    ensures FoldAll(s, times).minimum in times <==> exists i :: 0 <= i < |times| && times[i] <= s.minimum
  {
    ExtremesOfHistory(s, times);
  }
}
