/** The sample buffers of the aging effects (CyclicalAging, CalendarianAging, AnodeOverhang). */
module AgingSamples {
  import opened SampleLogs

  /** What an electrode or cell shows when a sample is taken. */
  datatype Sample = Sample(soc: real, voltage: real, temperature: real)

  /** Parallel buffers as one list of samples. */
  function Zip(socs: seq<real>, voltages: seq<real>, temperatures: seq<real>): (r: seq<Sample>)
    requires |socs| == |voltages| == |temperatures|
    ensures |r| == |socs|
  {
    seq(|socs|, i requires 0 <= i < |socs| => Sample(socs[i], voltages[i], temperatures[i]))
  }

  method Accumulate(values: seq<real>, first: nat, last: nat) returns (sum: real)
    requires first <= last <= |values|
    ensures sum == Sum(values[first..last])
  {
    sum := 0.0;
    var k := first;
    while k < last
      invariant first <= k <= last && sum == Sum(values[first..k])
    {
      assert values[first..k + 1][..k - first] == values[first..k];
      sum := sum + values[k];
      k := k + 1;
    }
  }

  class CyclicalAging {
    var timeSinceLastAgingStep: real
    var timeValues: seq<real>
    var socValues: seq<real>
    var voltageValues: seq<real>
    var temperatureValues: seq<real>

    ghost predicate Parallel()
      reads this
    {
      |timeValues| == |socValues| == |voltageValues| == |temperatureValues|
    }

    ghost function View(): Log<Sample>
      requires Parallel()
      reads this
    {
      Log(timeSinceLastAgingStep, timeValues, Zip(socValues, voltageValues, temperatureValues))
    }

    ghost predicate Valid()
      reads this
    {
      Parallel() && Ordered(View())
    }

    constructor ()
      ensures Valid() && View() == Log(0.0, [], []) && Increasing(timeValues)
    {
      timeSinceLastAgingStep, timeValues, socValues, voltageValues, temperatureValues := 0.0, [], [], [], [];
    }

    method CollectData(sample: Sample, timestep: real)
      requires Valid() && timestep >= 0.0
      modifies this
      ensures Valid() && View() == Collected(old(View()), sample, timestep)
      ensures timestep > 0.0 && Increasing(old(timeValues)) ==> Increasing(timeValues)
    {
      ghost var before := View();
      timeSinceLastAgingStep := timeSinceLastAgingStep + timestep;
      timeValues := timeValues + [timeSinceLastAgingStep];
      socValues := socValues + [sample.soc];
      voltageValues := voltageValues + [sample.voltage];
      temperatureValues := temperatureValues + [sample.temperature];
      assert View() == Collected(before, sample, timestep);
      StepOrdered(before, Collect(sample, timestep));
    }

    /** Forgets the samples taken later than `time`. */
    method ResetToPointInTime(time: real)
      requires Valid() && time >= 0.0
      modifies this
      ensures Valid() && View() == Reset(old(View()), time)
      ensures Increasing(old(timeValues)) ==> Increasing(timeValues)
    {
      ghost var before := View();
      var firstDeleteIndex := UpperBound(timeValues, time);
      timeValues := timeValues[..firstDeleteIndex];
      voltageValues := voltageValues[..firstDeleteIndex];
      socValues := socValues[..firstDeleteIndex];
      temperatureValues := temperatureValues[..firstDeleteIndex];
      timeSinceLastAgingStep := time;
      assert View() == Reset(before, time);
      StepOrdered(before, GoBack(time));
    }

    /** The mean of the values sampled from one recorded time to another; its window is not empty. */
    method GetAverageValue(startTime: real, endTime: real, valuesToAvg: seq<real>) returns (average: real)
      requires Valid() && |valuesToAvg| == |timeValues|
      requires startTime in timeValues && endTime in timeValues && startTime <= endTime
      ensures var window := Window(timeValues, valuesToAvg, startTime, endTime);
              window != [] && average == Sum(window) / |window| as real
      ensures forall low, high :: Within(Window(timeValues, valuesToAvg, startTime, endTime), low, high) ==>
                low <= average <= high
    {
      var startIndex := LowerBound(timeValues, startTime);
      var endIndex := UpperBound(timeValues, endTime);
      ghost var window := Window(timeValues, valuesToAvg, startTime, endTime);
      ghost var i :| 0 <= i < |timeValues| && timeValues[i] == startTime;
      WindowHolds(timeValues, valuesToAvg, startTime, endTime, i);
      BeforeThenUntil(timeValues, startTime, endTime);
      var valueSum := Accumulate(valuesToAvg, startIndex, endIndex);
      average := valueSum / (endIndex - startIndex) as real;
      forall low, high | Within(window, low, high)
        ensures low <= average <= high
      {
        AverageWithin(window, low, high);
      }
    }
  }

  /** A stress factor as a function of what was sampled. */
  datatype StressFactor = StressFactor(at: Sample -> real)

  function Clamp(v: real, low: real, high: real): (r: real)
    requires low <= high
    ensures low <= r <= high
  {
    if v < low then low else if v > high then high else v
  }

  /** The clamped stress of every sample. */
  function Stresses(samples: seq<Sample>, factor: StressFactor, low: real, high: real): (r: seq<real>)
    requires low <= high
    ensures |r| == |samples|
  {
    seq(|samples|, i requires 0 <= i < |samples| => Clamp(factor.at(samples[i]), low, high))
  }

  /** What every sample's stress factor is, unlimited. */
  function Factors(samples: seq<Sample>, factor: StressFactor): (r: seq<real>)
    ensures |r| == |samples|
  {
    seq(|samples|, i requires 0 <= i < |samples| => factor.at(samples[i]))
  }

  predicate AllBetween(values: seq<real>, low: real, high: real) {
    forall i :: 0 <= i < |values| ==> low <= values[i] <= high
  }

  predicate Constantly(values: seq<real>, v: real) {
    forall i :: 0 <= i < |values| ==> values[i] == v
  }

  /** What the result of averaging these factors is: their own time-weighted mean while they keep the limits, and for
      one and the same factor over the whole timestep that factor, or the limit it exceeds. */
  ghost predicate Averages(times: seq<real>, factors: seq<real>, low: real, high: real, timestep: real, result: real)
    requires |times| == |factors| && timestep > 0.0
  {
    && (AllBetween(factors, low, high) ==> result == TimeWeighted(times, factors, |times|) / timestep)
    && (times != [] && timestep == times[|times| - 1] && Constantly(factors, factors[0]) ==>
          result == if factors[0] < low then low else if factors[0] > high then high else factors[0])
  }

  lemma StressAverages(times: seq<real>, samples: seq<Sample>, factor: StressFactor, low: real, high: real,
                       timestep: real)
    requires |times| == |samples| && low <= high && timestep > 0.0
    ensures Averages(times, Factors(samples, factor), low, high, timestep,
                     TimeWeighted(times, Stresses(samples, factor, low, high), |times|) / timestep)
  {
    hide TimeWeighted, Stresses, Factors, AllBetween, Constantly, Clamp;
    var factors, n := Factors(samples, factor), |times|;
    if AllBetween(factors, low, high) {
      NothingIsLimited(samples, factor, low, high);
    }
    if times != [] && timestep == times[n - 1] && Constantly(factors, factors[0]) {
      var v := Clamp(factors[0], low, high);
      ConstantStays(samples, factor, low, high);
      ConstantWeighted(times, Stresses(samples, factor, low, high), n, v);
      TimesOver(v, timestep);
      ClampIs(factors[0], low, high);
    }
  }

  lemma ClampIs(v: real, low: real, high: real)
    requires low <= high
    ensures Clamp(v, low, high) == if v < low then low else if v > high then high else v
  {
  }

  lemma NothingIsLimited(samples: seq<Sample>, factor: StressFactor, low: real, high: real)
    requires low <= high && AllBetween(Factors(samples, factor), low, high)
    ensures Stresses(samples, factor, low, high) == Factors(samples, factor)
  {
    hide Stresses, Factors;
    StressesAre(samples, factor, low, high);
  }

  lemma ConstantStays(samples: seq<Sample>, factor: StressFactor, low: real, high: real)
    requires low <= high && samples != [] && Constantly(Factors(samples, factor), Factors(samples, factor)[0])
    ensures Constantly(Stresses(samples, factor, low, high), Clamp(Factors(samples, factor)[0], low, high))
  {
    hide Stresses, Factors, Clamp;
    StressesAre(samples, factor, low, high);
  }

  lemma StressesAre(samples: seq<Sample>, factor: StressFactor, low: real, high: real)
    requires low <= high
    ensures forall i :: 0 <= i < |samples| ==>
              Stresses(samples, factor, low, high)[i] == Clamp(Factors(samples, factor)[i], low, high)
  {
  }

  /** A value that never changes, times the whole time. */
  lemma {:induction false} ConstantWeighted(times: seq<real>, values: seq<real>, k: nat, v: real)
    requires k <= |times| == |values| && Constantly(values, v)
    ensures TimeWeighted(times, values, k) == v * Until(times, k)
  {
    if k > 0 {
      ConstantWeighted(times, values, k - 1, v);
      assert v * Until(times, k - 1) + v * (times[k - 1] - Until(times, k - 1)) == v * times[k - 1];
    }
  }

  lemma TimesOver(v: real, time: real)
    requires time > 0.0
    ensures v * time / time == v
  {
  }

  /** Two samples within the limits, written out. */
  lemma TwoWeighted(t: real, u: real, a: real, b: real)
    ensures TimeWeighted([t, u], [a, b], 2) == a * t + b * (u - t)
  {
    var times, values := [t, u], [a, b];
    assert TimeWeighted(times, values, 1) == TimeWeighted(times, values, 0) + a * (t - 0.0);
  }

  lemma StressesWithin(samples: seq<Sample>, factor: StressFactor, low: real, high: real)
    requires low <= high
    ensures Within(Stresses(samples, factor, low, high), low, high)
  {
  }

  class CalendarianAging {
    const isEnabled: bool
    var timeSinceLastAgingStep: real
    var timeValues: seq<real>
    var voltageValues: seq<real>
    var temperatureValues: seq<real>
    var socValues: seq<real>
    var stressFactorCapacity: real
    var stressFactorResistance: real

    ghost predicate Parallel()
      reads this
    {
      |timeValues| == |socValues| == |voltageValues| == |temperatureValues|
    }

    ghost function View(): Log<Sample>
      requires Parallel()
      reads this
    {
      Log(timeSinceLastAgingStep, timeValues, Zip(socValues, voltageValues, temperatureValues))
    }

    ghost predicate Valid()
      reads this
    {
      Parallel() && Ordered(View())
    }

    constructor (isEnabled: bool)
      ensures Valid() && View() == Log(0.0, [], []) && Increasing(timeValues) && this.isEnabled == isEnabled
    {
      this.isEnabled := isEnabled;
      timeSinceLastAgingStep, timeValues, socValues, voltageValues, temperatureValues := 0.0, [], [], [], [];
      stressFactorCapacity, stressFactorResistance := 0.0, 0.0;
    }

    /** Samples only when enabled, and not for a timestep of 0. */
    method CollectData(sample: Sample, timestep: real)
      requires Valid() && timestep >= 0.0
      modifies this
      ensures Valid()
      ensures View() == if isEnabled && timestep != 0.0 then Collected(old(View()), sample, timestep) else old(View())
      ensures Increasing(old(timeValues)) ==> Increasing(timeValues)
    {
      if isEnabled {
        if timestep == 0.0 {
          return;
        }
        ghost var before := View();
        timeSinceLastAgingStep := timeSinceLastAgingStep + timestep;
        timeValues := timeValues + [timeSinceLastAgingStep];
        voltageValues := voltageValues + [sample.voltage];
        temperatureValues := temperatureValues + [sample.temperature];
        socValues := socValues + [sample.soc];
        assert View() == Collected(before, sample, timestep);
        StepOrdered(before, Collect(sample, timestep));
      }
    }

    method ResetToPointInTime(time: real)
      requires Valid() && time >= 0.0
      modifies this
      ensures Valid() && View() == Reset(old(View()), time)
      ensures Increasing(old(timeValues)) ==> Increasing(timeValues)
    {
      ghost var before := View();
      var firstDeleteIndex := UpperBound(timeValues, time);
      timeValues := timeValues[..firstDeleteIndex];
      voltageValues := voltageValues[..firstDeleteIndex];
      temperatureValues := temperatureValues[..firstDeleteIndex];
      socValues := socValues[..firstDeleteIndex];
      timeSinceLastAgingStep := time;
      assert View() == Reset(before, time);
      StepOrdered(before, GoBack(time));
    }

    /** The averaging loop of CalculateAging: the clamped stress of every sample, times how long it lasted. */
    method WeightedStresses(capacity: StressFactor, resistance: StressFactor, minCapacity: real, maxCapacity: real,
                            minResistance: real, maxResistance: real) returns (capacitySum: real, resistanceSum: real)
      requires Valid() && minCapacity <= maxCapacity && minResistance <= maxResistance
      ensures capacitySum
              == TimeWeighted(timeValues, Stresses(View().samples, capacity, minCapacity, maxCapacity), |timeValues|)
      ensures resistanceSum
              == TimeWeighted(timeValues, Stresses(View().samples, resistance, minResistance, maxResistance),
                              |timeValues|)
    {
      hide Lasting;
      ghost var cs := Stresses(View().samples, capacity, minCapacity, maxCapacity);
      ghost var rs := Stresses(View().samples, resistance, minResistance, maxResistance);
      capacitySum, resistanceSum := 0.0, 0.0;
      var previousTime := 0.0;
      var i := 0;
      while i < |timeValues|
        invariant i <= |timeValues| && previousTime == Until(timeValues, i)
        invariant capacitySum == TimeWeighted(timeValues, cs, i) && resistanceSum == TimeWeighted(timeValues, rs, i)
      {
        var actual := Sample(socValues[i], voltageValues[i], temperatureValues[i]);
        var dt := timeValues[i] - previousTime;
        var alphaCap := Clamp(capacity.at(actual), minCapacity, maxCapacity);
        var alphaRes := Clamp(resistance.at(actual), minResistance, maxResistance);
        assert cs[i] == alphaCap && rs[i] == alphaRes;
        capacitySum := capacitySum + Lasting(alphaCap, dt);
        resistanceSum := resistanceSum + Lasting(alphaRes, dt);
        previousTime := timeValues[i];
        i := i + 1;
      }
    }

    /** The clamped stress of all samples, each weighted with how long it lasted, over the timestep. */
    ghost function Mean(factor: StressFactor, low: real, high: real, timestep: real): real
      requires Parallel() && low <= high && timestep > 0.0
      reads this
    {
      TimeWeighted(timeValues, Stresses(View().samples, factor, low, high), |timeValues|) / timestep
    }

    /** CalculateAging up to the stress factors: the time-weighted means over the timestep; then the buffers start
        anew. */
    method CalculateStress(timestep: real, capacity: StressFactor, resistance: StressFactor, minCapacity: real,
                           maxCapacity: real,
                           minResistance: real, maxResistance: real)
      requires Valid() && timestep > 0.0 && minCapacity <= maxCapacity && minResistance <= maxResistance
      modifies this
      ensures Valid()
      ensures var done := isEnabled && old(timeSinceLastAgingStep) > 0.0 && old(timeValues) != [];
              && (!done ==> && View() == old(View()) && stressFactorCapacity == old(stressFactorCapacity)
                            && stressFactorResistance == old(stressFactorResistance))
              && (done ==> && View() == Log(0.0, [], [])
                           && stressFactorCapacity == old(Mean(capacity, minCapacity, maxCapacity, timestep))
                           && stressFactorResistance == old(Mean(resistance, minResistance, maxResistance, timestep)))
              && (done && timestep == old(timeValues[|timeValues| - 1]) ==>
                    && minCapacity <= stressFactorCapacity <= maxCapacity
                    && minResistance <= stressFactorResistance <= maxResistance)
      ensures isEnabled && old(timeSinceLastAgingStep) > 0.0 && old(timeValues) != [] ==>
                && Averages(old(timeValues), Factors(old(View().samples), capacity), minCapacity, maxCapacity, timestep,
                            stressFactorCapacity)
                && Averages(old(timeValues), Factors(old(View().samples), resistance), minResistance, maxResistance,
                            timestep, stressFactorResistance)
    {
      if isEnabled && timeSinceLastAgingStep > 0.0 && timeValues != [] {
        ghost var times, samples := timeValues, View().samples;
        var alphaCapSum, alphaResSum :=
          WeightedStresses(capacity, resistance, minCapacity, maxCapacity, minResistance, maxResistance);
        stressFactorCapacity := alphaCapSum / timestep;
        stressFactorResistance := alphaResSum / timestep;
        StressAverages(times, samples, capacity, minCapacity, maxCapacity, timestep);
        StressAverages(times, samples, resistance, minResistance, maxResistance, timestep);
        StressesWithin(samples, capacity, minCapacity, maxCapacity);
        StressesWithin(samples, resistance, minResistance, maxResistance);
        StressWithin(times, Stresses(samples, capacity, minCapacity, maxCapacity), timestep, minCapacity, maxCapacity);
        StressWithin(times, Stresses(samples, resistance, minResistance, maxResistance), timestep, minResistance,
                     maxResistance);
        timeValues, voltageValues, temperatureValues, socValues := [], [], [], [];
        timeSinceLastAgingStep := 0.0;
      }
    }
  }

  /** Over the time of all samples, the mean lies between the clamps. */
  lemma StressWithin(times: seq<real>, values: seq<real>, timestep: real, low: real, high: real)
    requires |times| == |values| && times != [] && Sorted(times) && times[0] >= 0.0 && Within(values, low, high)
             && timestep > 0.0
    ensures timestep == times[|times| - 1] ==> low <= TimeWeighted(times, values, |times|) / timestep <= high
  {
    WeightedWithin(times, values, |times|, low, high);
    hide TimeWeighted;
    if timestep == times[|times| - 1] {
      MeanWithin(TimeWeighted(times, values, |times|), timestep, low, high);
    }
  }

  lemma MeanWithin(sum: real, time: real, low: real, high: real)
    requires time > 0.0 && Lasting(low, time) <= sum <= Lasting(high, time)
    ensures low <= sum / time <= high
  {
    assert low * time / time == low && high * time / time == high;
  }

  datatype AnodeSample = AnodeSample(voltage: real, temperature: real)

  function ZipAnode(voltages: seq<real>, temperatures: seq<real>): (r: seq<AnodeSample>)
    requires |voltages| == |temperatures|
    ensures |r| == |voltages|
  {
    seq(|voltages|, i requires 0 <= i < |voltages| => AnodeSample(voltages[i], temperatures[i]))
  }

  class AnodeOverhang {
    const isEnabled: bool
    var totalCalculationTime: real
    var timeValues: seq<real>
    var anodeVoltageValues: seq<real>
    var temperatureValues: seq<real>

    ghost predicate Parallel()
      reads this
    {
      |timeValues| == |anodeVoltageValues| == |temperatureValues|
    }

    ghost function View(): Log<AnodeSample>
      requires Parallel()
      reads this
    {
      Log(totalCalculationTime, timeValues, ZipAnode(anodeVoltageValues, temperatureValues))
    }

    ghost predicate Valid()
      reads this
    {
      Parallel() && Ordered(View())
    }

    constructor (isEnabled: bool)
      ensures Valid() && View() == Log(0.0, [], []) && Increasing(timeValues) && this.isEnabled == isEnabled
    {
      this.isEnabled := isEnabled;
      totalCalculationTime, timeValues, anodeVoltageValues, temperatureValues := 0.0, [], [], [];
    }

    /** Samples the negated voltage, when enabled. */
    method CollectData(voltage: real, temperature: real, timestep: real)
      requires Valid() && timestep >= 0.0
      modifies this
      ensures Valid()
      ensures View() == if isEnabled then Collected(old(View()), AnodeSample(-voltage, temperature), timestep)
              else old(View())
      ensures timestep > 0.0 && Increasing(old(timeValues)) ==> Increasing(timeValues)
    {
      if isEnabled {
        ghost var before := View();
        totalCalculationTime := totalCalculationTime + timestep;
        timeValues := timeValues + [totalCalculationTime];
        anodeVoltageValues := anodeVoltageValues + [-voltage];
        temperatureValues := temperatureValues + [temperature];
        assert View() == Collected(before, AnodeSample(-voltage, temperature), timestep);
        StepOrdered(before, Collect(AnodeSample(-voltage, temperature), timestep));
      }
    }

    method ResetToPointInTime(time: real)
      requires Valid() && time >= 0.0
      modifies this
      ensures Valid() && View() == Reset(old(View()), time)
      ensures Increasing(old(timeValues)) ==> Increasing(timeValues)
    {
      ghost var before := View();
      var firstDeleteIndex := UpperBound(timeValues, time);
      timeValues := timeValues[..firstDeleteIndex];
      anodeVoltageValues := anodeVoltageValues[..firstDeleteIndex];
      temperatureValues := temperatureValues[..firstDeleteIndex];
      totalCalculationTime := time;
      assert View() == Reset(before, time);
      StepOrdered(before, GoBack(time));
    }
  }
}
