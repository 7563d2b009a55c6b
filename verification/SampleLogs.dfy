/** Samples with the times they were taken at, and going back in time: what the buffers of all aging effects have
    in common. */
module SampleLogs {
  /** The clock, and each sample with its time. */
  datatype Log<S> = Log(clock: real, times: seq<real>, samples: seq<S>)

  predicate Sorted(times: seq<real>) {
    forall i, j :: 0 <= i < j < |times| ==> times[i] <= times[j]
  }

  predicate Increasing(times: seq<real>) {
    forall i, j :: 0 <= i < j < |times| ==> times[i] < times[j]
  }

  /** One time per sample, in order, none after the clock. */
  predicate Ordered<S>(log: Log<S>) {
    && |log.times| == |log.samples| && Sorted(log.times)
    && (forall i :: 0 <= i < |log.times| ==> 0.0 <= log.times[i] <= log.clock) && log.clock >= 0.0
  }

  /** CollectData: the clock goes on, and the sample is taken. */
  function Collected<S>(log: Log<S>, sample: S, timestep: real): Log<S> {
    Log(log.clock + timestep, log.times + [log.clock + timestep], log.samples + [sample])
  }

  /** How many of the times are at most `t`. */
  function CountUntil(times: seq<real>, t: real): (n: nat)
    ensures n <= |times|
  {
    if times == [] || times[0] > t then 0 else 1 + CountUntil(times[1..], t)
  }

  /** ResetToPointInTime: what was taken later is gone, and the clock is set back. */
  function Reset<S>(log: Log<S>, t: real): Log<S>
    requires |log.times| == |log.samples|
  {
    var n := CountUntil(log.times, t);
    Log(t, log.times[..n], log.samples[..n])
  }

  lemma {:induction false} CountIs(times: seq<real>, t: real, n: nat)
    requires n <= |times| && (forall i :: 0 <= i < n ==> times[i] <= t) && (n < |times| ==> times[n] > t)
    ensures CountUntil(times, t) == n
    decreases n
  {
    if n > 0 {
      CountIs(times[1..], t, n - 1);
    }
  }

  /** Where std::upper_bound stops: before all later times, after all others. */
  method UpperBound(times: seq<real>, t: real) returns (n: nat)
    requires Sorted(times)
    ensures n == CountUntil(times, t) <= |times|
    ensures (forall i :: 0 <= i < n ==> times[i] <= t) && forall i :: n <= i < |times| ==> times[i] > t
  {
    n := 0;
    var count := |times|;
    while count > 0
      invariant 0 <= count && n + count <= |times|
      invariant forall i :: 0 <= i < n ==> times[i] <= t
      invariant forall i :: n + count <= i < |times| ==> times[i] > t
    {
      var step := count / 2;
      if times[n + step] <= t {
        n, count := n + step + 1, count - (step + 1);
      } else {
        count := step;
      }
    }
    CountIs(times, t, n);
  }

  /** How many of the times are before `t`. */
  function CountBefore(times: seq<real>, t: real): (n: nat)
    ensures n <= |times|
  {
    if times == [] || times[0] >= t then 0 else 1 + CountBefore(times[1..], t)
  }

  lemma {:induction false} CountBeforeIs(times: seq<real>, t: real, n: nat)
    requires n <= |times| && (forall i :: 0 <= i < n ==> times[i] < t) && (n < |times| ==> times[n] >= t)
    ensures CountBefore(times, t) == n
    decreases n
  {
    if n > 0 {
      CountBeforeIs(times[1..], t, n - 1);
    }
  }

  lemma {:induction false} BeforeThenUntil(times: seq<real>, start: real, end: real)
    requires start <= end
    ensures CountBefore(times, start) <= CountUntil(times, end)
  {
    if times != [] {
      BeforeThenUntil(times[1..], start, end);
    }
  }

  /** The values taken from one time to another. */
  function Window(times: seq<real>, values: seq<real>, start: real, end: real): seq<real>
    requires |times| == |values| && start <= end
  {
    BeforeThenUntil(times, start, end);
    values[CountBefore(times, start)..CountUntil(times, end)]
  }

  /** The window holds exactly the values taken between the two times, both included. */
  lemma WindowHolds(times: seq<real>, values: seq<real>, start: real, end: real, k: nat)
    requires Sorted(times) && |times| == |values| && start <= end && k < |times|
    ensures var first := CountBefore(times, start);
            if start <= times[k] <= end then
              first <= k < first + |Window(times, values, start, end)|
              && Window(times, values, start, end)[k - first] == values[k]
            else k < first || first + |Window(times, values, start, end)| <= k
  {
    BeforeThenUntil(times, start, end);
    CountBounds(times, end);
    CountBeforeBounds(times, start);
  }

  lemma {:induction false} CountBeforeBounds(times: seq<real>, t: real)
    ensures var n := CountBefore(times, t); (forall i :: 0 <= i < n ==> times[i] < t) && (n < |times| ==> times[n] >= t)
  {
    if times != [] && times[0] < t {
      CountBeforeBounds(times[1..], t);
      assert forall i :: 0 < i < |times| ==> times[i] == times[1..][i - 1];
    }
  }

  /** Where std::lower_bound stops. */
  method LowerBound(times: seq<real>, t: real) returns (n: nat)
    requires Sorted(times)
    ensures n == CountBefore(times, t) <= |times|
    ensures (forall i :: 0 <= i < n ==> times[i] < t) && forall i :: n <= i < |times| ==> times[i] >= t
  {
    n := 0;
    var count := |times|;
    while count > 0
      invariant 0 <= count && n + count <= |times|
      invariant forall i :: 0 <= i < n ==> times[i] < t
      invariant forall i :: n + count <= i < |times| ==> times[i] >= t
    {
      var step := count / 2;
      if times[n + step] < t {
        n, count := n + step + 1, count - (step + 1);
      } else {
        count := step;
      }
    }
    CountBeforeIs(times, t, n);
  }

  // ---------------------------------------------------------------------------------------------
  // Runs
  // ---------------------------------------------------------------------------------------------

  datatype Step<S> = Collect(sample: S, timestep: real) | GoBack(time: real)

  function After<S>(log: Log<S>, step: Step<S>): Log<S>
    requires |log.times| == |log.samples|
    ensures |After(log, step).times| == |After(log, step).samples|
  {
    match step
    case Collect(sample, timestep) => Collected(log, sample, timestep)
    case GoBack(time) => Reset(log, time)
  }

  function Run<S>(log: Log<S>, steps: seq<Step<S>>): (r: Log<S>)
    requires |log.times| == |log.samples|
    ensures |r.times| == |r.samples|
    decreases |steps|
  {
    if steps == [] then log else Run(After(log, steps[0]), steps[1..])
  }

  /** No time runs backwards, and no reset goes to before `t`. */
  ghost predicate Forward<S>(steps: seq<Step<S>>, t: real) {
    forall s :: s in steps ==> if s.Collect? then s.timestep >= 0.0 else s.time >= t
  }

  lemma StepOrdered<S>(log: Log<S>, step: Step<S>)
    requires Ordered(log) && if step.Collect? then step.timestep >= 0.0 else step.time >= 0.0
    ensures Ordered(After(log, step))
    ensures step.Collect? && step.timestep > 0.0 && Increasing(log.times) ==> Increasing(After(log, step).times)
    ensures step.GoBack? && Increasing(log.times) ==> Increasing(After(log, step).times)
  {
    if step.GoBack? {
      CountBounds(log.times, step.time);
    }
  }

  lemma {:induction false} CountBounds(times: seq<real>, t: real)
    ensures var n := CountUntil(times, t); (forall i :: 0 <= i < n ==> times[i] <= t) && (n < |times| ==> times[n] > t)
  {
    if times != [] && times[0] <= t {
      CountBounds(times[1..], t);
      var n := CountUntil(times[1..], t);
      assert forall i :: 0 < i < n + 1 ==> times[i] == times[1..][i - 1];
    }
  }

  /** The log begins with `before`, and all it has besides was taken later than `before`'s clock. */
  ghost predicate Continues<S>(before: Log<S>, log: Log<S>) {
    && |before.times| == |before.samples| && |log.times| == |log.samples| && log.clock >= before.clock
    && before.times <= log.times && before.samples <= log.samples
    && forall i :: |before.times| <= i < |log.times| ==> log.times[i] > before.clock
  }

  lemma StepContinues<S>(before: Log<S>, log: Log<S>, step: Step<S>)
    requires Ordered(before) && Continues(before, log)
    requires if step.Collect? then step.timestep >= 0.0 && log.clock + step.timestep > before.clock
             else step.time >= before.clock
    ensures Continues(before, After(log, step))
  {
    if step.GoBack? {
      CountBounds(log.times, step.time);
      assert forall i :: 0 <= i < |before.times| ==> log.times[i] == before.times[i];
    }
  }

  /** Going back to the time of `before` gives `before`. */
  lemma BackToBefore<S>(before: Log<S>, log: Log<S>)
    requires Ordered(before) && Continues(before, log)
    ensures Reset(log, before.clock) == before
  {
    var n := |before.times|;
    assert forall i :: 0 <= i < n ==> log.times[i] == before.times[i];
    CountIs(log.times, before.clock, n);
  }

  /** Some step takes a sample at the very time `t`. */
  ghost predicate SampledAt<S>(t: real, log: Log<S>, steps: seq<Step<S>>)
    requires |log.times| == |log.samples|
    decreases |steps|
  {
    steps != []
    && ((steps[0].Collect? && log.clock + steps[0].timestep == t) || SampledAt(t, After(log, steps[0]), steps[1..]))
  }

  /** Right behind `before` the log has a sample taken at `before`'s clock. */
  ghost predicate Spoiled<S>(before: Log<S>, log: Log<S>) {
    |log.times| == |log.samples| && before.times + [before.clock] <= log.times
  }

  /** The first sample at that very time comes right behind `before`. */
  lemma SampleSpoils<S>(before: Log<S>, log: Log<S>, step: Step<S>)
    requires Ordered(before) && Ordered(log) && Continues(before, log)
    requires step.Collect? && step.timestep >= 0.0 && log.clock + step.timestep == before.clock
    ensures Spoiled(before, After(log, step))
  {
    NotAfterClock(before, log);
    assert log.times == before.times;
  }

  /** Nothing is later than the clock. */
  lemma NotAfterClock<S>(before: Log<S>, log: Log<S>)
    requires Ordered(log) && Continues(before, log) && log.clock == before.clock
    ensures |log.times| == |before.times|
  {
    if |log.times| > |before.times| {
      FirstLater(before, log);
      assert false;
    }
  }

  lemma FirstLater<S>(before: Log<S>, log: Log<S>)
    requires Ordered(log) && Continues(before, log) && |log.times| > |before.times|
    ensures log.clock > before.clock
  {
    assert log.times[|before.times|] > before.clock;
  }

  lemma StepSpoiled<S>(before: Log<S>, log: Log<S>, step: Step<S>)
    requires Ordered(before) && Spoiled(before, log) && (step.GoBack? ==> step.time >= before.clock)
    ensures Spoiled(before, After(log, step))
  {
    var kept := before.times + [before.clock];
    if step.GoBack? {
      CountBounds(log.times, step.time);
      assert forall i :: 0 <= i < |kept| ==> log.times[i] == kept[i] <= step.time;
    }
  }

  lemma {:induction false} RunSpoiled<S>(before: Log<S>, log: Log<S>, steps: seq<Step<S>>)
    requires Ordered(before) && Spoiled(before, log) && Forward(steps, before.clock)
    ensures Spoiled(before, Run(log, steps))
    decreases |steps|
  {
    if steps != [] {
      assert steps[0] in steps;
      StepSpoiled(before, log, steps[0]);
      RunSpoiled(before, After(log, steps[0]), steps[1..]);
    }
  }

  /** The log after the steps still continues `before` unless one of them samples at its very time. */
  lemma {:induction false} RunContinues<S>(before: Log<S>, log: Log<S>, steps: seq<Step<S>>)
    requires Ordered(before) && Ordered(log) && Continues(before, log) && Forward(steps, before.clock)
    ensures if SampledAt(before.clock, log, steps) then Spoiled(before, Run(log, steps))
            else Continues(before, Run(log, steps))
    decreases |steps|
  {
    hide Ordered, Continues, Spoiled, After;
    if steps != [] {
      assert steps[0] in steps;
      ClockFollows(before, log);
      StepOrdered(log, steps[0]);
      if steps[0].Collect? && log.clock + steps[0].timestep == before.clock {
        SampleSpoils(before, log, steps[0]);
        RunSpoiled(before, After(log, steps[0]), steps[1..]);
      } else {
        StepContinues(before, log, steps[0]);
        RunContinues(before, After(log, steps[0]), steps[1..]);
      }
    }
  }

  lemma ClockFollows<S>(before: Log<S>, log: Log<S>)
    requires Ordered(before) && Continues(before, log)
    ensures log.clock >= before.clock >= 0.0 && |log.times| == |log.samples|
  {
  }

  /** Over any run of samples and resets to no earlier time, going back to a time once reached restores exactly
      what was held then, if and only if nothing else was sampled at that very time. */
  lemma RollbackExactly<S>(before: Log<S>, steps: seq<Step<S>>)
    requires Ordered(before) && Forward(steps, before.clock)
    ensures Reset(Run(before, steps), before.clock) == before <==> !SampledAt(before.clock, before, steps)
  {
    RunContinues(before, before, steps);
    if SampledAt(before.clock, before, steps) {
      SameTimeStays(before, Run(before, steps));
    } else {
      BackToBefore(before, Run(before, steps));
    }
  }

  lemma {:induction false} PositiveNeverAt<S>(t: real, log: Log<S>, steps: seq<Step<S>>)
    requires |log.times| == |log.samples| && log.clock >= t && Forward(steps, t)
    requires forall s :: s in steps && s.Collect? ==> s.timestep > 0.0
    ensures !SampledAt(t, log, steps)
    decreases |steps|
  {
    if steps != [] {
      assert steps[0] in steps;
      PositiveNeverAt(t, After(log, steps[0]), steps[1..]);
    }
  }

  /** In particular whenever all timesteps are positive. */
  lemma RollbackIsExact<S>(before: Log<S>, steps: seq<Step<S>>)
    requires Ordered(before) && Forward(steps, before.clock)
    requires forall s :: s in steps && s.Collect? ==> s.timestep > 0.0
    ensures Reset(Run(before, steps), before.clock) == before
  {
    PositiveNeverAt(before.clock, before, steps);
    RollbackExactly(before, steps);
  }

  /** Going back and sampling once more without letting time pass leaves a sample too many. */
  lemma RollbackFails<S>(s: S)
    ensures var before, steps := Log(1.0, [1.0], [s]), [Collect(s, 1.0), GoBack(1.0), Collect(s, 0.0)];
            && Ordered(before) && Forward(steps, before.clock)
            && Reset(Run(before, steps), before.clock) == Log(1.0, [1.0, 1.0], [s, s]) != before
  {
    var before, later := Log(1.0, [1.0], [s]), Log(2.0, [1.0, 2.0], [s, s]);
    var steps: seq<Step<S>> := [Collect(s, 1.0), GoBack(1.0), Collect(s, 0.0)];
    assert steps[1..] == [GoBack(1.0), Collect(s, 0.0)] && steps[1..][1..] == [Collect(s, 0.0)]
           && steps[1..][1..][1..] == [];
    assert After(before, steps[0]) == later;
    CountIs(later.times, 1.0, 1);
    assert After(later, steps[1]) == before;
    assert After(before, steps[2]) == Log(1.0, [1.0, 1.0], [s, s]);
    CountIs([1.0, 1.0], 1.0, 2);
    RunThree(before, steps);
  }

  lemma RunThree<S>(log: Log<S>, steps: seq<Step<S>>)
    requires |log.times| == |log.samples| && |steps| == 3
    ensures Run(log, steps) == After(After(After(log, steps[0]), steps[1]), steps[2])
  {
    hide After;
    var rest := steps[1..];
    assert rest[1..][1..] == [] && rest[1..][0] == steps[2];
    assert Run(After(After(log, steps[0]), steps[1]), rest[1..])
           == After(After(After(log, steps[0]), steps[1]), steps[2]);
  }

  lemma SameTimeStays<S>(before: Log<S>, log: Log<S>)
    requires Ordered(before) && Spoiled(before, log)
    ensures Reset(log, before.clock) != before
  {
    var kept := before.times + [before.clock];
    CountBounds(log.times, before.clock);
    assert forall i :: 0 <= i < |kept| ==> log.times[i] == kept[i];
  }

  // ---------------------------------------------------------------------------------------------
  // Averages
  // ---------------------------------------------------------------------------------------------

  function Sum(values: seq<real>): real {
    if values == [] then 0.0 else Sum(values[..|values| - 1]) + values[|values| - 1]
  }

  predicate Within(values: seq<real>, low: real, high: real) {
    forall i :: 0 <= i < |values| ==> low <= values[i] <= high
  }

  lemma {:induction false} SumWithin(values: seq<real>, low: real, high: real)
    requires Within(values, low, high)
    ensures |values| as real * low <= Sum(values) <= |values| as real * high
    decreases |values|
  {
    if values != [] {
      var n := |values| - 1;
      SumWithin(values[..n], low, high);
      assert |values| as real * low == n as real * low + low;
      assert |values| as real * high == n as real * high + high;
    }
  }

  /** An average lies between any bounds of the values. */
  lemma AverageWithin(values: seq<real>, low: real, high: real)
    requires values != [] && Within(values, low, high)
    ensures low <= Sum(values) / |values| as real <= high
  {
    SumWithin(values, low, high);
  }

  function Lasting(value: real, duration: real): real {
    value * duration
  }

  /** The values of the first `k` samples, each times how long it lasted. */
  function TimeWeighted(times: seq<real>, values: seq<real>, k: nat): real
    requires k <= |times| == |values|
  {
    if k == 0 then 0.0
    else TimeWeighted(times, values, k - 1) + Lasting(values[k - 1], times[k - 1] - Until(times, k - 1))
  }

  /** The time of the `k`-th sample, 0 before the first. */
  function Until(times: seq<real>, k: nat): real
    requires k <= |times|
  {
    if k == 0 then 0.0 else times[k - 1]
  }

  /** A time-weighted sum of bounded values lies between the bounds times the whole time. */
  lemma {:induction false} WeightedWithin(times: seq<real>, values: seq<real>, k: nat, low: real, high: real)
    requires k <= |times| == |values| && Sorted(times) && (times != [] ==> times[0] >= 0.0) && Within(values, low, high)
    ensures Lasting(low, Until(times, k)) <= TimeWeighted(times, values, k) <= Lasting(high, Until(times, k))
    decreases k
  {
    hide Lasting;
    if k == 0 {
      NoTime(low);
      NoTime(high);
    } else {
      WeightedWithin(times, values, k - 1, low, high);
      Longer(low, high, values[k - 1], Until(times, k - 1), times[k - 1]);
    }
  }

  lemma NoTime(v: real)
    ensures Lasting(v, 0.0) == 0.0
  {
  }

  lemma Longer(low: real, high: real, v: real, from: real, to: real)
    requires low <= v <= high && from <= to
    ensures Lasting(low, from) + Lasting(v, to - from) >= Lasting(low, to)
    ensures Lasting(high, from) + Lasting(v, to - from) <= Lasting(high, to)
  {
    Bounded(low, v, to - from);
    Bounded(v, high, to - from);
  }

  lemma Bounded(a: real, b: real, dt: real)
    requires a <= b && dt >= 0.0
    ensures a * dt <= b * dt
  {
  }
}
