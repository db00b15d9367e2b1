/**
 * help_dynamic_state: the time steps of the whole simulation are split
 * into one contiguous run per work unit.  The first `steps % units` units
 * take one step more than the others; every unit but the last also computes
 * one step beyond its own run.
 */
module DynamicStateHelper {
  import opened Outcomes
  import DynamicState
  import opened MachineInts

  /** The arguments a work unit passes on to generate_dynamic_state (the times, in ns). */
  datatype WorkUnit = WorkUnit(simulationEndTimeNs: int, timeStepNs: nat, offsetNs: int)

  datatype HelperError = DivisionByZero

  /** `math.floor(simulation_end_time_ns / time_step_ns)`. */
  function NumCalculations(simulationEndTimeNs: nat, timeStepNs: nat): nat
    requires timeStepNs > 0
  {
    simulationEndTimeNs / timeStepNs
  }

  /** The number of time steps unit i calculates. */
  function UnitSteps(numCalculations: nat, numThreads: nat, i: nat): nat
    requires numThreads > 0
  {
    numCalculations / numThreads + (if i < numCalculations % numThreads then 1 else 0)
  }

  /** The value of `current` before unit i: the steps of the units before it. */
  function StepsBefore(numCalculations: nat, numThreads: nat, i: nat): nat
    requires numThreads > 0
  {
    if i == 0 then 0 else StepsBefore(numCalculations, numThreads, i - 1) + UnitSteps(numCalculations, numThreads, i - 1)
  }

  /** Unit i starts at its first step and ends after its last step plus, unless it is the last unit, one more. */
  predicate IsUnit(u: WorkUnit, n: nat, t: nat, stepNs: nat, i: nat)
    requires t > 0
  {
    && u.timeStepNs == stepNs
    && u.offsetNs == StepsBefore(n, t, i) * stepNs
    && u.simulationEndTimeNs == (StepsBefore(n, t, i) + UnitSteps(n, t, i)) * stepNs + (if i + 1 != t then stepNs else 0)
  }

  /** help_dynamic_state's argument loop: one work unit per thread, in order; a zero step or thread count divides by zero. */
  method HelpDynamicState(numThreads: nat, timeStepMs: nat, durationS: nat) returns (r: Result<seq<WorkUnit>, HelperError>)
    ensures r.Err? <==> timeStepMs == 0 || numThreads == 0
    ensures r.Ok? ==>
              var stepNs := timeStepMs * 1000000;
              var n := NumCalculations(durationS * 1000000000, stepNs);
              && |r.value| == numThreads
              && forall i :: 0 <= i < numThreads ==> IsUnit(r.value[i], n, numThreads, stepNs, i)
  {
    var simulationEndTimeNs := durationS * 1000 * 1000 * 1000;
    var timeStepNs := timeStepMs * 1000 * 1000;
    if timeStepNs == 0 || numThreads == 0 {
      return Err(DivisionByZero);
    }
    var numCalculations := NumCalculations(simulationEndTimeNs, timeStepNs);
    var calculationsPerThread := numCalculations / numThreads;
    var numThreadsWithOneMore := numCalculations % numThreads;
    var current := 0;
    var listArgs: seq<WorkUnit> := [];
    for i := 0 to numThreads
      invariant |listArgs| == i && current == StepsBefore(numCalculations, numThreads, i)
      invariant forall k :: 0 <= k < i ==> IsUnit(listArgs[k], numCalculations, numThreads, timeStepNs, k)
    {
      var numTimeSteps := calculationsPerThread;
      if i < numThreadsWithOneMore {
        numTimeSteps := numTimeSteps + 1;
      }
      assert numTimeSteps == UnitSteps(numCalculations, numThreads, i);
      var endNs := (current + numTimeSteps) * timeStepNs + (if i + 1 != numThreads then timeStepNs else 0);
      var u := WorkUnit(endNs, timeStepNs, current * timeStepNs);
      assert IsUnit(u, numCalculations, numThreads, timeStepNs, i);
      listArgs := listArgs + [u];
      current := current + numTimeSteps;
    }
    return Ok(listArgs);
  }

  /** Unit sizes differ by at most one, the larger ones first. */
  lemma UnitStepsBalanced(n: nat, t: nat, i: nat, j: nat)
    requires t > 0 && i <= j
    ensures UnitSteps(n, t, j) <= UnitSteps(n, t, i) <= UnitSteps(n, t, j) + 1
    ensures UnitSteps(n, t, i) == n / t + 1 <==> i < n % t
  {
  }

  /** Closed form: before unit i come i base-size runs and one extra step per earlier enlarged unit. */
  lemma {:induction false} StepsBeforeClosed(n: nat, t: nat, i: nat)
    requires t > 0
    ensures StepsBefore(n, t, i) == i * (n / t) + (if i < n % t then i else n % t)
  {
    if i > 0 {
      StepsBeforeClosed(n, t, i - 1);
      assert (i - 1) * (n / t) + n / t == i * (n / t);
    }
  }

  /** The units together calculate every time step exactly once: their counts sum to the total. */
  lemma AllStepsCovered(n: nat, t: nat)
    requires t > 0
    ensures StepsBefore(n, t, t) == n
  {
    StepsBeforeClosed(n, t, t);
    assert n == t * (n / t) + n % t;
  }

  /**
   * The runs are contiguous and together cover steps 0 .. n-1: step k
   * belongs to unit i exactly when it lies in [StepsBefore(i), StepsBefore(i + 1)).
   */
  lemma {:induction false} StepInSomeUnit(n: nat, t: nat, k: nat) returns (i: nat)
    requires t > 0 && k < n
    ensures i < t && StepsBefore(n, t, i) <= k < StepsBefore(n, t, i + 1)
  {
    AllStepsCovered(n, t);
    i := 0;
    while StepsBefore(n, t, i + 1) <= k
      invariant i < t && StepsBefore(n, t, i) <= k
      decreases t - i
    {
      i := i + 1;
      if i == t {
        assert false;
      }
    }
  }

  /**
   * Each unit passes generate_dynamic_state's offset check, and the time
   * steps it then computes are its own run plus, for all but the last unit,
   * the first step of the next one.
   */
  lemma UnitTimeSteps(n: nat, t: nat, stepNs: nat, i: nat)
    requires t > 0 && stepNs > 0 && i < t
    ensures var offsetNs := StepsBefore(n, t, i) * stepNs;
            var endNs := (StepsBefore(n, t, i) + UnitSteps(n, t, i)) * stepNs + (if i + 1 != t then stepNs else 0);
            && offsetNs % stepNs == 0
            && |DynamicState.TimeSteps(offsetNs, endNs, stepNs)| == UnitSteps(n, t, i) + (if i + 1 != t then 1 else 0)
  {
    var before, steps := StepsBefore(n, t, i), UnitSteps(n, t, i);
    var count := steps + (if i + 1 != t then 1 else 0);
    assert (before + steps) * stepNs + (if i + 1 != t then stepNs else 0) == before * stepNs + count * stepNs;
    DynamicState.TimeStepsCount(before * stepNs, count, stepNs);
    DivModUnique(before * stepNs, stepNs, before, 0);
  }
}
