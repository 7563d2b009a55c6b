/** The capacity of an aged cell, found by charging and discharging its electrodes step by step
    (AgingTwoPort::CalculateCellCapacity). Charges are exact; the open circuit voltage is any function of them. */
module CellCapacity {
  // ---------------------------------------------------------------------------------------------
  // The search as a function
  // ---------------------------------------------------------------------------------------------

  /** Any function of one charge. */
  datatype Curve = Curve(at: real -> real)

  /** The open circuit voltage of the cell for the charges of its anode and cathode. */
  datatype Ocv = Ocv(voltage: (real, real) -> real)

  ghost function At(f: Curve, x: real): real {
    f.at(x)
  }

  /** The cell's voltage. */
  function Voltage(ocv: Ocv, anode: real, cathode: real): real {
    ocv.voltage(anode, cathode)
  }

  /** Within `n` steps from `x` the value `v` is reached. */
  ghost predicate Hits(f: Curve, x: real, step: real, v: real, n: nat)
    decreases n
  {
    n > 0 && (At(f, x + step) >= v || Hits(f, x + step, step, v, n - 1))
  }

  /** How many steps the do-while loop takes. */
  ghost function Steps(f: Curve, x: real, step: real, v: real, n: nat): (k: nat)
    requires Hits(f, x, step, v, n)
    ensures 1 <= k <= n
    decreases n
  {
    if At(f, x + step) >= v then 1 else 1 + Steps(f, x + step, step, v, n - 1)
  }

  /** The last value before the limit is reached. */
  ghost function Landing(f: Curve, x: real, step: real, v: real, n: nat): (y: real)
    requires Hits(f, x, step, v, n)
    ensures At(f, y + step) >= v && (y == x || At(f, y) < v)
    ensures step > 0.0 ==> y >= x
    decreases n
  {
    if At(f, x + step) >= v then x else Landing(f, x + step, step, v, n - 1)
  }

  lemma {:induction false} HitsAt(f: Curve, x: real, step: real, v: real, n: nat, y: real)
    requires n > 0 && x + n as real * step == y && At(f, y) >= v
    ensures Hits(f, x, step, v, n)
    decreases n
  {
    if n == 1 {
      assert x + step == y;
    } else {
      assert (n - 1) as real * step == n as real * step - step;
      HitsAt(f, x + step, step, v, n - 1, y);
    }
  }

  /** One decade finer, the limit is at most ten steps away. */
  lemma TenFiner(f: Curve, y: real, step: real, v: real)
    requires At(f, y + step) >= v
    ensures Hits(f, y, step / 10.0, v, 10)
  {
    HitsAt(f, y, step / 10.0, v, 10, y + step);
  }

  /** The whole search: where it ends and with which step. Every decade after the first takes at most ten
      steps. */
  ghost function Search(f: Curve, x: real, step: real, v: real, n: nat): (r: (real, real))
    requires step >= 1.0 && Hits(f, x, step, v, n)
    decreases step.Floor
  {
    var y := Landing(f, x, step, v, n);
    if step / 10.0 < 1.0 then (y, step)
    else
      TenFiner(f, y, step, v);
      Search(f, y, step / 10.0, v, 10)
  }

  /** The search ends within one last step of less than 10 As below the limit, and unless it never left its
      start it ends where the limit is not reached. */
  lemma {:induction false} SearchFinds(f: Curve, x: real, step: real, v: real, n: nat)
    requires step >= 1.0 && Hits(f, x, step, v, n)
    ensures var (y, last) := Search(f, x, step, v, n);
            1.0 <= last < 10.0 && At(f, y + last) >= v && (y == x || At(f, y) < v) && y >= x
    decreases step.Floor
  {
    if step / 10.0 >= 1.0 {
      var y := Landing(f, x, step, v, n);
      TenFiner(f, y, step, v);
      SearchFinds(f, y, step / 10.0, v, 10);
    }
  }

  /** One step: either the limit is reached, or the same search goes on from there. */
  lemma OneStep(f: Curve, x: real, step: real, v: real, n: nat)
    requires Hits(f, x, step, v, n)
    ensures At(f, x + step) >= v ==> Landing(f, x, step, v, n) == x && Steps(f, x, step, v, n) == 1
    ensures At(f, x + step) < v ==>
              && n > 1 && Hits(f, x + step, step, v, n - 1)
              && Landing(f, x, step, v, n) == Landing(f, x + step, step, v, n - 1)
              && Steps(f, x, step, v, n) == 1 + Steps(f, x + step, step, v, n - 1)
  {
  }

  /** Where the search that continues with this step ends. */
  ghost function Rest(f: Curve, x: real, step: real, v: real, n: nat): real
    requires step >= 1.0 ==> Hits(f, x, step, v, n)
  {
    if step >= 1.0 then Search(f, x, step, v, n).0 else x
  }

  lemma NextDecade(f: Curve, x: real, step: real, v: real, n: nat)
    requires step >= 1.0 && Hits(f, x, step, v, n)
    ensures var y := Landing(f, x, step, v, n);
            Hits(f, y, step / 10.0, v, 10) && Rest(f, y, step / 10.0, v, 10) == Rest(f, x, step, v, n)
    ensures 0 <= (step / 10.0).Floor < step.Floor
  {
    TenFiner(f, Landing(f, x, step, v, n), step, v);
  }

  /** `f` crosses `v` from below at `c`, once. */
  ghost predicate CrossesAt(f: Curve, v: real, c: real) {
    (forall x :: x < c ==> At(f, x) < v) && forall x :: x >= c ==> At(f, x) >= v
  }

  /** A crossing is reached by steps of any size. */
  lemma CrossingIsHit(f: Curve, x: real, step: real, v: real, c: real) returns (n: nat)
    requires step > 0.0 && CrossesAt(f, v, c)
    ensures Hits(f, x, step, v, n)
  {
    var d := if c > x then c - x else 0.0;
    n := (d / step).Floor + 1;
    Covered(d, step, n);
    HitsAt(f, x, step, v, n, x + n as real * step);
  }

  lemma Covered(d: real, step: real, n: nat)
    requires step > 0.0 && d >= 0.0 && n as real >= d / step
    ensures n as real * step >= d
  {
    assert d / step * step == d;
    assert (n as real - d / step) * step >= 0.0;
  }

  /** The limit is reached in steps of this size. */
  ghost predicate Reached(f: Curve, x: real, step: real, v: real) {
    exists n: nat :: Hits(f, x, step, v, n)
  }

  /** Where the search ends. */
  ghost function Found(f: Curve, x: real, step: real, v: real): real
    requires step >= 1.0 ==> Reached(f, x, step, v)
  {
    if step >= 1.0 then
      var n: nat :| Hits(f, x, step, v, n);
      Search(f, x, step, v, n).0
    else x
  }

  lemma {:induction false} LandingIsOne(f: Curve, x: real, step: real, v: real, n: nat, m: nat)
    requires Hits(f, x, step, v, n) && Hits(f, x, step, v, m)
    ensures Landing(f, x, step, v, n) == Landing(f, x, step, v, m)
    decreases n
  {
    if At(f, x + step) < v {
      LandingIsOne(f, x + step, step, v, n - 1, m - 1);
    }
  }

  /** The bound on the first decade plays no part. */
  lemma FoundIsRest(f: Curve, x: real, step: real, v: real, n: nat)
    requires step >= 1.0 ==> Hits(f, x, step, v, n)
    ensures (step >= 1.0 ==> Reached(f, x, step, v)) && Found(f, x, step, v) == Rest(f, x, step, v, n)
  {
    if step >= 1.0 {
      var m: nat :| Hits(f, x, step, v, m) && Found(f, x, step, v) == Search(f, x, step, v, m).0;
      SearchIsOne(f, x, step, v, n, m);
    }
  }

  lemma SearchIsOne(f: Curve, x: real, step: real, v: real, n: nat, m: nat)
    requires step >= 1.0 && Hits(f, x, step, v, n) && Hits(f, x, step, v, m)
    ensures Search(f, x, step, v, n) == Search(f, x, step, v, m)
  {
    LandingIsOne(f, x, step, v, n, m);
    hide Hits, Landing;
  }

  /** A single crossing at or after the start is reached, and missed by less than 10 As, from below. */
  lemma SearchNearCrossing(f: Curve, x: real, step: real, v: real, c: real)
    requires step >= 1.0 && CrossesAt(f, v, c) && x <= c
    ensures Reached(f, x, step, v) && c - 10.0 < Found(f, x, step, v) <= c
  {
    var n := CrossingIsHit(f, x, step, v, c);
    FoundIsRest(f, x, step, v, n);
    SearchFinds(f, x, step, v, n);
  }

  // ---------------------------------------------------------------------------------------------
  // The search on the electrodes
  // ---------------------------------------------------------------------------------------------

  /** The stored charge of an electrode or a cell, in ampere seconds. */
  class Soc {
    var stored: real
    const minimum: real
    const maximum: real

    constructor (stored: real, minimum: real, maximum: real)
      ensures this.stored == stored && this.minimum == minimum && this.maximum == maximum
    {
      this.stored, this.minimum, this.maximum := stored, minimum, maximum;
    }
  }

  class AgingState {
    var capacityFactor: real
    var socOffset: real

    constructor ()
    {
      capacityFactor, socOffset := 1.0, 0.0;
    }
  }

  /** The cell voltage after both electrodes got the charge `d`. */
  ghost function Charged(ocv: Ocv, a: real, c: real): Curve {
    Curve((d: real) => ocv.voltage(a + d, c + d))
  }

  /** The negated cell voltage after both electrodes lost the charge `d`. */
  ghost function Drained(ocv: Ocv, a: real, c: real): Curve {
    Curve((d: real) => -ocv.voltage(a - d, c - d))
  }

  lemma VoltageAt(ocv: Ocv, a: real, c: real, d: real)
    ensures At(Charged(ocv, a, c), d) == Voltage(ocv, a + d, c + d)
    ensures At(Drained(ocv, a, c), d) == -Voltage(ocv, a - d, c - d)
  {
  }

  const MINIMUM_STEP := 1.0

  /** Charges both electrodes until just below the minimum voltage. */
  method RaiseToMinimum(anode: Soc, cathode: Soc, ocv: Ocv, minVoltage: real, initialStep: real)
    requires anode != cathode
    requires initialStep >= 1.0 ==> Reached(Charged(ocv, anode.stored, cathode.stored), 0.0, initialStep, minVoltage)
    modifies anode`stored, cathode`stored
    ensures var y := Found(Charged(ocv, old(anode.stored), old(cathode.stored)), 0.0, initialStep, minVoltage);
            anode.stored == old(anode.stored) + y && cathode.stored == old(cathode.stored) + y
  {
    hide Hits, Landing, Search, Charged, Rest, Found;
    ghost var f, a, c := Charged(ocv, anode.stored, cathode.stored), anode.stored, cathode.stored;
    ghost var n: nat := 0;
    if initialStep >= 1.0 {
      n :| Hits(f, 0.0, initialStep, minVoltage, n);
    }
    FoundIsRest(f, 0.0, initialStep, minVoltage, n);
    ghost var bound := n;
    ghost var x := 0.0;
    var chargeStep := initialStep;
    while chargeStep >= MINIMUM_STEP
      invariant anode.stored == a + x && cathode.stored == c + x
      invariant chargeStep >= 1.0 ==> Hits(f, x, chargeStep, minVoltage, bound)
      invariant Rest(f, x, chargeStep, minVoltage, bound) == Rest(f, 0.0, initialStep, minVoltage, n)
      decreases if chargeStep >= 1.0 then chargeStep.Floor else 0
    {
      NextDecade(f, x, chargeStep, minVoltage, bound);
      ghost var k;
      x, k := StepsUp(anode, cathode, ocv, minVoltage, chargeStep, a, c, x, bound);
      chargeStep := chargeStep / 10.0;
      bound := 10;
    }
    Ended(f, x, chargeStep, minVoltage, bound);
  }

  lemma Ended(f: Curve, x: real, step: real, v: real, n: nat)
    requires step < 1.0
    ensures Rest(f, x, step, v, n) == x
  {
  }

  /** One decade: charges until the minimum voltage is reached, then takes the last step back. `k` counts the
      steps. */
  method StepsUp(anode: Soc, cathode: Soc, ocv: Ocv, minVoltage: real, chargeStep: real,
                 ghost a: real, ghost c: real, ghost x: real, ghost n: nat) returns (ghost y: real, ghost k: nat)
    requires anode != cathode && anode.stored == a + x && cathode.stored == c + x
    requires Hits(Charged(ocv, a, c), x, chargeStep, minVoltage, n)
    modifies anode`stored, cathode`stored
    ensures y == Landing(Charged(ocv, a, c), x, chargeStep, minVoltage, n) && anode.stored == a + y
            && cathode.stored == c + y
    ensures k == Steps(Charged(ocv, a, c), x, chargeStep, minVoltage, n)
  {
    hide Hits, Landing, Steps, Charged, Voltage, At;
    ghost var f, left := Charged(ocv, a, c), n;
    y, k := x, 0;
    while true
      invariant anode.stored == a + y && cathode.stored == c + y
      invariant Hits(f, y, chargeStep, minVoltage, left)
      invariant Landing(f, y, chargeStep, minVoltage, left) == Landing(f, x, chargeStep, minVoltage, n)
      invariant k + Steps(f, y, chargeStep, minVoltage, left) == Steps(f, x, chargeStep, minVoltage, n)
      decreases left
    {
      anode.stored, cathode.stored := anode.stored + chargeStep, cathode.stored + chargeStep;
      k := k + 1;
      OneStep(f, y, chargeStep, minVoltage, left);
      VoltageAt(ocv, a, c, y + chargeStep);
      assert anode.stored == a + (y + chargeStep) && cathode.stored == c + (y + chargeStep);
      if !(Voltage(ocv, anode.stored, cathode.stored) < minVoltage) {
        break;
      }
      y, left := y + chargeStep, left - 1;
    }
    anode.stored, cathode.stored := anode.stored - chargeStep, cathode.stored - chargeStep;
  }

  /** Discharges both electrodes until just above the maximum voltage. */
  method LowerToMaximum(anode: Soc, cathode: Soc, ocv: Ocv, maxVoltage: real, initialStep: real)
    requires anode != cathode
    requires initialStep >= 1.0 ==> Reached(Drained(ocv, anode.stored, cathode.stored), 0.0, initialStep, -maxVoltage)
    modifies anode`stored, cathode`stored
    ensures var y := Found(Drained(ocv, old(anode.stored), old(cathode.stored)), 0.0, initialStep, -maxVoltage);
            anode.stored == old(anode.stored) - y && cathode.stored == old(cathode.stored) - y
  {
    hide Hits, Landing, Search, Drained, Rest, Found;
    ghost var f, a, c := Drained(ocv, anode.stored, cathode.stored), anode.stored, cathode.stored;
    ghost var n: nat := 0;
    if initialStep >= 1.0 {
      n :| Hits(f, 0.0, initialStep, -maxVoltage, n);
    }
    FoundIsRest(f, 0.0, initialStep, -maxVoltage, n);
    ghost var bound := n;
    ghost var x := 0.0;
    var chargeStep := initialStep;
    while chargeStep >= MINIMUM_STEP
      invariant anode.stored == a - x && cathode.stored == c - x
      invariant chargeStep >= 1.0 ==> Hits(f, x, chargeStep, -maxVoltage, bound)
      invariant Rest(f, x, chargeStep, -maxVoltage, bound) == Rest(f, 0.0, initialStep, -maxVoltage, n)
      decreases if chargeStep >= 1.0 then chargeStep.Floor else 0
    {
      NextDecade(f, x, chargeStep, -maxVoltage, bound);
      ghost var k;
      x, k := StepsDown(anode, cathode, ocv, maxVoltage, chargeStep, a, c, x, bound);
      chargeStep := chargeStep / 10.0;
      bound := 10;
    }
    Ended(f, x, chargeStep, -maxVoltage, bound);
  }

  /** One decade: discharges until the maximum voltage is no longer exceeded, then takes the last step back. */
  method StepsDown(anode: Soc, cathode: Soc, ocv: Ocv, maxVoltage: real, chargeStep: real,
                   ghost a: real, ghost c: real, ghost x: real, ghost n: nat) returns (ghost y: real, ghost k: nat)
    requires anode != cathode && anode.stored == a - x && cathode.stored == c - x
    requires Hits(Drained(ocv, a, c), x, chargeStep, -maxVoltage, n)
    modifies anode`stored, cathode`stored
    ensures y == Landing(Drained(ocv, a, c), x, chargeStep, -maxVoltage, n) && anode.stored == a - y
            && cathode.stored == c - y
    ensures k == Steps(Drained(ocv, a, c), x, chargeStep, -maxVoltage, n)
  {
    hide Hits, Landing, Steps, Drained, Voltage, At;
    ghost var f, left := Drained(ocv, a, c), n;
    y, k := x, 0;
    while true
      invariant anode.stored == a - y && cathode.stored == c - y
      invariant Hits(f, y, chargeStep, -maxVoltage, left)
      invariant Landing(f, y, chargeStep, -maxVoltage, left) == Landing(f, x, chargeStep, -maxVoltage, n)
      invariant k + Steps(f, y, chargeStep, -maxVoltage, left) == Steps(f, x, chargeStep, -maxVoltage, n)
      decreases left
    {
      anode.stored, cathode.stored := anode.stored - chargeStep, cathode.stored - chargeStep;
      k := k + 1;
      OneStep(f, y, chargeStep, -maxVoltage, left);
      VoltageAt(ocv, a, c, y + chargeStep);
      assert anode.stored == a - (y + chargeStep) && cathode.stored == c - (y + chargeStep);
      if !(Voltage(ocv, anode.stored, cathode.stored) > maxVoltage) {
        break;
      }
      y, left := y + chargeStep, left - 1;
    }
    anode.stored, cathode.stored := anode.stored + chargeStep, cathode.stored + chargeStep;
  }

  // ---------------------------------------------------------------------------------------------
  // The capacity
  // ---------------------------------------------------------------------------------------------

  function Min(x: real, y: real): real {
    if x <= y then x else y
  }

  /** The charges of the electrodes when the one that is emptier than its minimum allows is at its minimum. */
  function UntilMinimum(a: real, c: real, anode: Soc, cathode: Soc): real {
    Min(a - anode.minimum, c - cathode.minimum)
  }

  function UntilMaximum(a: real, c: real, anode: Soc, cathode: Soc): real {
    Min(anode.maximum - a, cathode.maximum - c)
  }

  /** The search upwards starts with no electrode below its minimum, and one of them exactly there; the search downwards
      with none above its maximum, and one exactly there. */
  lemma StartsAtALimit(a: real, c: real, anode: Soc, cathode: Soc, d: real)
    ensures d == UntilMinimum(a, c, anode, cathode)
            <==> a - d >= anode.minimum && c - d >= cathode.minimum && (a - d == anode.minimum
                    || c - d == cathode.minimum)
    ensures d == UntilMaximum(a, c, anode, cathode)
            <==> a + d <= anode.maximum && c + d <= cathode.maximum && (a + d == anode.maximum
                    || c + d == cathode.maximum)
  {
  }

  /** From the lowest charges the minimum voltage is reached in first steps. */
  ghost predicate LowReachable(anode: Soc, cathode: Soc, a: real, c: real, ocv: Ocv, minVoltage: real, step: real) {
    var d := UntilMinimum(a, c, anode, cathode);
    step >= 1.0 ==> Reached(Charged(ocv, a - d, c - d), 0.0, step, minVoltage)
  }

  /** From the highest charges the maximum voltage is reached in first steps. */
  ghost predicate HighReachable(anode: Soc, cathode: Soc, a: real, c: real, ocv: Ocv, maxVoltage: real, step: real) {
    var d := UntilMaximum(a, c, anode, cathode);
    step >= 1.0 ==> Reached(Drained(ocv, a + d, c + d), 0.0, step, -maxVoltage)
  }

  /** The charge of the anode at the minimum voltage, as found from the charges `a` and `c`. */
  ghost function FoundMinimum(anode: Soc, cathode: Soc, a: real, c: real, ocv: Ocv, minVoltage: real, step: real): real
    requires LowReachable(anode, cathode, a, c, ocv, minVoltage, step)
  {
    var d := UntilMinimum(a, c, anode, cathode);
    a - d + Found(Charged(ocv, a - d, c - d), 0.0, step, minVoltage)
  }

  ghost function FoundMaximum(anode: Soc, cathode: Soc, a: real, c: real, ocv: Ocv, maxVoltage: real, step: real): real
    requires HighReachable(anode, cathode, a, c, ocv, maxVoltage, step)
  {
    var d := UntilMaximum(a, c, anode, cathode);
    a + d - Found(Drained(ocv, a + d, c + d), 0.0, step, -maxVoltage)
  }

  /** Sets the capacity factor to what lies between the two limits and shifts the offset by how far the cell's
      charge is off; the electrodes are left as they were. Both limits must be reachable in whole first steps, which
      they are when the voltage crosses them (`CapacityIsClose`). Only a cell with half cells has a capacity. */
  method CalculateCellCapacity(isCellelement: bool, hasHalfcells: bool, anode: Soc, cathode: Soc, cellCharge: real,
                               initialCapacity: real, ocv: Ocv, minVoltage: real, maxVoltage: real, aging: AgingState)
    requires isCellelement && hasHalfcells ==>
               && anode != cathode && initialCapacity != 0.0
               && LowReachable(anode, cathode, anode.stored, cathode.stored, ocv, minVoltage, initialCapacity / 100.0)
               && HighReachable(anode, cathode, anode.stored, cathode.stored, ocv, maxVoltage, initialCapacity / 100.0)
    modifies anode`stored, cathode`stored, aging
    ensures anode.stored == old(anode.stored) && cathode.stored == old(cathode.stored)
    ensures !(isCellelement && hasHalfcells) ==> unchanged(aging)
    ensures isCellelement && hasHalfcells ==>
              var a, c, step := old(anode.stored), old(cathode.stored), initialCapacity / 100.0;
              var low := FoundMinimum(anode, cathode, a, c, ocv, minVoltage, step);
              var high := FoundMaximum(anode, cathode, a, c, ocv, maxVoltage, step);
              && aging.capacityFactor == (high - low) / initialCapacity
              && aging.socOffset == old(aging.socOffset) + (a - low - cellCharge)
  {
    if !isCellelement {
      return;
    }
    if !hasHalfcells {
      return;
    }
    FindCellCapacity(anode, cathode, cellCharge, initialCapacity, ocv, minVoltage, maxVoltage, aging);
  }

  /** The search itself. */
  method FindCellCapacity(anode: Soc, cathode: Soc, cellCharge: real, initialCapacity: real, ocv: Ocv, minVoltage: real,
                          maxVoltage: real, aging: AgingState)
    requires anode != cathode && initialCapacity != 0.0
    requires LowReachable(anode, cathode, anode.stored, cathode.stored, ocv, minVoltage, initialCapacity / 100.0)
    requires HighReachable(anode, cathode, anode.stored, cathode.stored, ocv, maxVoltage, initialCapacity / 100.0)
    modifies anode`stored, cathode`stored, aging
    ensures anode.stored == old(anode.stored) && cathode.stored == old(cathode.stored)
    ensures var a, c, step := old(anode.stored), old(cathode.stored), initialCapacity / 100.0;
            var low := FoundMinimum(anode, cathode, a, c, ocv, minVoltage, step);
            var high := FoundMaximum(anode, cathode, a, c, ocv, maxVoltage, step);
            && aging.capacityFactor == (high - low) / initialCapacity
            && aging.socOffset == old(aging.socOffset) + (a - low - cellCharge)
  {
    hide Hits, Rest, Charged, Drained, Reached, Found;
    var storedChargeAnode, storedChargeCathode := anode.stored, cathode.stored;
    var anodeChargeUntilMinimum := storedChargeAnode - anode.minimum;
    var cathodeChargeUntilMinimum := storedChargeCathode - cathode.minimum;
    var chargeUntilMinimum := Min(anodeChargeUntilMinimum, cathodeChargeUntilMinimum);
    anode.stored, cathode.stored := anode.stored - chargeUntilMinimum, cathode.stored - chargeUntilMinimum;

    var initialChargeStep := initialCapacity / 100.0;
    RaiseToMinimum(anode, cathode, ocv, minVoltage, initialChargeStep);
    var minAnodeCharge := anode.stored;

    var anodeChargeUntilMaximum := anode.maximum - storedChargeAnode;
    var cathodeChargeUntilMaximum := cathode.maximum - storedChargeCathode;
    var chargeUntilMaximum := Min(anodeChargeUntilMaximum, cathodeChargeUntilMaximum);
    anode.stored, cathode.stored := storedChargeAnode + chargeUntilMaximum, storedChargeCathode + chargeUntilMaximum;

    LowerToMaximum(anode, cathode, ocv, maxVoltage, initialChargeStep);
    var maxAnodeCharge := anode.stored;

    anode.stored, cathode.stored := storedChargeAnode, storedChargeCathode;

    var cellCapacity := maxAnodeCharge - minAnodeCharge;
    var cellSocValue := storedChargeAnode - minAnodeCharge;
    var cellSocOffset := cellSocValue - cellCharge;
    aging.capacityFactor := cellCapacity / initialCapacity;
    aging.socOffset := aging.socOffset + cellSocOffset;
  }

  /** When the voltage crosses each limit once, between the two starts, at the anode charges `lowest` and
      `highest`, the searches end, and the capacity found is too large by less than 20 As and never too small. */
  lemma CapacityIsClose(anode: Soc, cathode: Soc, a: real, c: real, ocv: Ocv, minVoltage: real, maxVoltage: real,
                        step: real, lowest: real, highest: real)
    requires step >= 1.0
    requires var d := UntilMinimum(a, c, anode, cathode);
             a - d <= lowest && CrossesAt(Charged(ocv, a - d, c - d), minVoltage, lowest - (a - d))
    requires var d := UntilMaximum(a, c, anode, cathode);
             highest <= a + d && CrossesAt(Drained(ocv, a + d, c + d), -maxVoltage, a + d - highest)
    ensures LowReachable(anode, cathode, a, c, ocv, minVoltage, step)
    ensures HighReachable(anode, cathode, a, c, ocv, maxVoltage, step)
    ensures var low := FoundMinimum(anode, cathode, a, c, ocv, minVoltage, step);
            var high := FoundMaximum(anode, cathode, a, c, ocv, maxVoltage, step);
            highest - lowest <= high - low < highest - lowest + 20.0
  {
    hide Hits, Search, CrossesAt, Charged, Drained, UntilMinimum, UntilMaximum, Reached, Found;
    var d, e := UntilMinimum(a, c, anode, cathode), UntilMaximum(a, c, anode, cathode);
    SearchNearCrossing(Charged(ocv, a - d, c - d), 0.0, step, minVoltage, lowest - (a - d));
    SearchNearCrossing(Drained(ocv, a + e, c + e), 0.0, step, -maxVoltage, a + e - highest);
  }
}
