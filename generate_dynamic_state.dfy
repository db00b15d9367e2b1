/**
 * generate_dynamic_state: the time-step loop that threads the previous
 * output into the next step, the offset check, the ISL interface numbering
 * and the choice of routing algorithm by name.  What one time step computes
 * (`generate_dynamic_state_at`) is a function parameter here; it returns
 * either the step's output or the error the step raises.
 */
module DynamicState {
  import opened Outcomes

  datatype DynamicStateError =
    | DivisionByZero             // ZeroDivisionError from `%` with a zero right operand
    | OffsetNotMultipleOfStep
    | SatelliteIndexError(index: nat)  // an end of the ISL at this position is not an index of the satellite list
    | IslTooLong(index: nat)     // the ISL at this position in the list exceeds the maximum ISL length
    | UnknownAlgorithm

  // ---------------------------------------------------------------- time steps

  /** `range(offset, end, step)` for a positive step. */
  function TimeSteps(offsetNs: int, endNs: int, stepNs: nat): (r: seq<int>)
    requires stepNs > 0
    decreases endNs - offsetNs
  {
    if offsetNs >= endNs then [] else [offsetNs] + TimeSteps(offsetNs + stepNs, endNs, stepNs)
  }

  /** The range holds every k-th step below the end, and nothing else. */
  lemma {:induction false} TimeStepsAt(offsetNs: int, endNs: int, stepNs: nat)
    requires stepNs > 0
    ensures var ts := TimeSteps(offsetNs, endNs, stepNs);
            && (forall k :: 0 <= k < |ts| ==> ts[k] == offsetNs + k * stepNs && ts[k] < endNs)
            && (|ts| == 0 || offsetNs + |ts| * stepNs >= endNs)
    decreases endNs - offsetNs
  {
    if offsetNs < endNs {
      var ts := TimeSteps(offsetNs, endNs, stepNs);
      var rest := TimeSteps(offsetNs + stepNs, endNs, stepNs);
      TimeStepsAt(offsetNs + stepNs, endNs, stepNs);
      forall k | 0 <= k < |ts|
        ensures ts[k] == offsetNs + k * stepNs && ts[k] < endNs
      {
        if k > 0 {
          assert ts[k] == rest[k - 1];
          assert offsetNs + stepNs + (k - 1) * stepNs == offsetNs + k * stepNs;
        }
      }
      if |rest| > 0 {
        assert offsetNs + stepNs + |rest| * stepNs == offsetNs + |ts| * stepNs;
      }
    }
  }

  /** A range over a whole number of steps has exactly that many entries. */
  lemma {:induction false} TimeStepsCount(offsetNs: int, count: nat, stepNs: nat)
    requires stepNs > 0
    ensures |TimeSteps(offsetNs, offsetNs + count * stepNs, stepNs)| == count
    decreases count
  {
    if count > 0 {
      assert offsetNs + count * stepNs == (offsetNs + stepNs) + (count - 1) * stepNs;
      TimeStepsCount(offsetNs + stepNs, count - 1, stepNs);
    }
  }

  /** One call of `generate_dynamic_state_at`: from the time and the previous output, an output or the error it raises. */
  type Step<!O> = (int, Option<O>) -> Result<O, DynamicStateError>

  /** The outputs of the loop: each step succeeded on its time and the previous step's output. */
  ghost predicate Threaded<O>(times: seq<int>, outputs: seq<O>, count: nat, at: Step<O>)
    requires count <= |times| && count <= |outputs|
  {
    forall k :: 0 <= k < count ==> at(times[k], Previous(outputs, k)) == Ok(outputs[k])
  }

  /** `prev_output` at step k: nothing before the first step, else the output of step k - 1. */
  function Previous<O>(outputs: seq<O>, k: nat): Option<O>
    requires k <= |outputs|
  {
    if k == 0 then None else Some(outputs[k - 1])
  }

  lemma ThreadedStep<O>(times: seq<int>, outputs: seq<O>, at: Step<O>, o: O)
    requires |outputs| < |times| && Threaded(times, outputs, |outputs|, at)
    requires at(times[|outputs|], Previous(outputs, |outputs|)) == Ok(o)
    ensures Threaded(times, outputs + [o], |outputs| + 1, at)
  {
    var next := outputs + [o];
    forall k | 0 <= k < |outputs| + 1
      ensures at(times[k], Previous(next, k)) == Ok(next[k])
    {
      assert Previous(next, k) == Previous(outputs, k);
      if k < |outputs| {
        assert next[k] == outputs[k];
      }
    }
  }

  /**
   * The first k time steps run in order, each fed the previous output; the
   * first step that raises ends the run with its error.
   */
  function Run<O>(times: seq<int>, k: nat, at: Step<O>): (r: Result<seq<O>, DynamicStateError>)
    requires k <= |times|
    ensures r.Ok? ==> |r.value| == k
  {
    if k == 0 then Ok([])
    else
      var prev := Run(times, k - 1, at);
      if prev.Err? then prev
      else
        var step := at(times[k - 1], Previous(prev.value, k - 1));
        if step.Err? then Err(step.error)
        else Ok(prev.value + [step.value])
  }

  /** A successful run holds one output per step, each what its step returned on the output before it. */
  lemma {:induction false} RunThreaded<O>(times: seq<int>, k: nat, at: Step<O>)
    requires k <= |times| && Run(times, k, at).Ok?
    ensures Threaded(times, Run(times, k, at).value, k, at)
  {
    if k > 0 {
      var prev := Run(times, k - 1, at);
      RunThreaded(times, k - 1, at);
      ThreadedStep(times, prev.value, at, Run(times, k, at).value[k - 1]);
      assert Run(times, k, at).value == prev.value + [Run(times, k, at).value[k - 1]];
    }
  }

  /** Once a step has raised, running further steps keeps its error. */
  lemma {:induction false} RunErrorSticks<O>(times: seq<int>, j: nat, k: nat, at: Step<O>)
    requires j <= k <= |times| && Run(times, j, at).Err?
    ensures Run(times, k, at) == Run(times, j, at)
    decreases k - j
  {
    if j < k {
      RunErrorSticks(times, j, k - 1, at);
    }
  }

  /**
   * A failed run names its first failing step: every step before j
   * succeeded, and step j, fed the output of step j - 1, raised the run's error.
   */
  lemma {:induction false} RunFailsAtFirstError<O>(times: seq<int>, k: nat, at: Step<O>) returns (j: nat)
    requires k <= |times| && Run(times, k, at).Err?
    ensures j < k && Run(times, j, at).Ok?
    ensures at(times[j], Previous(Run(times, j, at).value, j)) == Err(Run(times, k, at).error)
  {
    if Run(times, k - 1, at).Err? {
      j := RunFailsAtFirstError(times, k - 1, at);
    } else {
      j := k - 1;
    }
  }

  /** A run whose every step succeeds on the outputs before it returns those outputs. */
  lemma {:induction false} RunOfThreaded<O>(times: seq<int>, outputs: seq<O>, k: nat, at: Step<O>)
    requires k <= |times| && k <= |outputs| && Threaded(times, outputs, k, at)
    ensures Run(times, k, at) == Ok(outputs[..k])
  {
    if k > 0 {
      RunOfThreaded(times, outputs, k - 1, at);
      assert Previous(outputs[..k - 1], k - 1) == Previous(outputs, k - 1);
      assert outputs[..k - 1] + [outputs[k - 1]] == outputs[..k];
    }
  }

  /** The progress divisor `int(floor(total_iterations) / 10.0)` when the loop runs at least once. */
  function ProgressDivisor(offsetNs: int, endNs: int, stepNs: nat): nat
    requires stepNs > 0 && offsetNs < endNs
  {
    ((endNs - offsetNs) / stepNs) / 10
  }

  /** Why generate_dynamic_state, as written, raises before or in its first iteration, ahead of any step. */
  function AsWrittenFailure(offsetNs: int, endNs: int, stepNs: nat, enableVerboseLogs: bool): Option<DynamicStateError>
  {
    if stepNs == 0 then Some(DivisionByZero)
    else if offsetNs % stepNs != 0 then Some(OffsetNotMultipleOfStep)
    else if !enableVerboseLogs && offsetNs < endNs && ProgressDivisor(offsetNs, endNs, stepNs) == 0 then Some(DivisionByZero)
    else None
  }

  /**
   * generate_dynamic_state as written: with verbose logs off, the progress
   * test `i % divisor` runs on every iteration, and the divisor is zero when
   * there are fewer than ten time steps.  Otherwise the steps run in order
   * and the first one that raises ends the loop.
   */
  method GenerateDynamicStateAsWritten<O>(offsetNs: int, simulationEndTimeNs: int, timeStepNs: nat, enableVerboseLogs: bool,
                                          at: Step<O>)
    returns (r: Result<seq<O>, DynamicStateError>)
    ensures AsWrittenFailure(offsetNs, simulationEndTimeNs, timeStepNs, enableVerboseLogs).Some? ==>
              r == Err(AsWrittenFailure(offsetNs, simulationEndTimeNs, timeStepNs, enableVerboseLogs).value)
    ensures AsWrittenFailure(offsetNs, simulationEndTimeNs, timeStepNs, enableVerboseLogs).None? ==>
              var times := TimeSteps(offsetNs, simulationEndTimeNs, timeStepNs);
              r == Run(times, |times|, at)
  {
    if timeStepNs == 0 {
      return Err(DivisionByZero);
    }
    if offsetNs % timeStepNs != 0 {
      return Err(OffsetNotMultipleOfStep);
    }
    var times := TimeSteps(offsetNs, simulationEndTimeNs, timeStepNs);
    var outputs: seq<O> := [];
    var i := 0;
    while i < |times|
      invariant 0 <= i <= |times| && Run(times, i, at) == Ok(outputs)
      invariant i > 0 && !enableVerboseLogs ==> ProgressDivisor(offsetNs, simulationEndTimeNs, timeStepNs) != 0
    {
      if !enableVerboseLogs {
        var divisor := ProgressDivisor(offsetNs, simulationEndTimeNs, timeStepNs);
        if divisor == 0 {
          return Err(DivisionByZero);
        }
      }
      var step := at(times[i], Previous(outputs, i));
      if step.Err? {
        RunErrorSticks(times, i + 1, |times|, at);
        return Err(step.error);
      }
      outputs := outputs + [step.value];
      i := i + 1;
    }
    assert |times| > 0 <==> offsetNs < simulationEndTimeNs;
    return Ok(outputs);
  }

  /** Fewer than ten time steps with verbose logs off make the loop above raise on its first iteration. */
  lemma FewStepsRaiseAsWritten(offsetNs: int, endNs: int, stepNs: nat)
    requires stepNs > 0 && offsetNs % stepNs == 0 && offsetNs < endNs && endNs - offsetNs < 10 * stepNs
    ensures AsWrittenFailure(offsetNs, endNs, stepNs, false) == Some(DivisionByZero)
  {
    DivBelow(endNs - offsetNs, stepNs, 10);
  }

  lemma DivBelow(d: int, s: int, c: int)
    requires 0 <= d && 0 < s && d < c * s
    ensures d / s < c
  {
  }

  /** The concrete case: offset 0, end 5 ns, step 1 ns, verbose logs off. */
  lemma FiveStepsRaiseAsWritten()
    ensures AsWrittenFailure(0, 5, 1, false) == Some(DivisionByZero)
    ensures Failure(0, 5, 1, false) == None
  {
  }

  /** What raises ahead of the steps once the progress test no longer divides by zero: only the argument checks. */
  function Failure(offsetNs: int, endNs: int, stepNs: nat, enableVerboseLogs: bool): Option<DynamicStateError>
  {
    if stepNs == 0 then Some(DivisionByZero)
    else if offsetNs % stepNs != 0 then Some(OffsetNotMultipleOfStep)
    else None
  }

  /**
   * generate_dynamic_state with the progress report guarded against a zero
   * divisor: a zero step or an unaligned offset raise first; otherwise the
   * steps of `range(offset, end, step)` run in order, each fed the previous
   * output, and the first step that raises (an ISL too long, an unknown
   * algorithm, an algorithm's own check) ends the loop with its error.
   */
  method GenerateDynamicState<O>(offsetNs: int, simulationEndTimeNs: int, timeStepNs: nat, enableVerboseLogs: bool,
                                 at: Step<O>)
    returns (r: Result<seq<O>, DynamicStateError>)
    ensures Failure(offsetNs, simulationEndTimeNs, timeStepNs, enableVerboseLogs).Some? ==>
              r == Err(Failure(offsetNs, simulationEndTimeNs, timeStepNs, enableVerboseLogs).value)
    ensures Failure(offsetNs, simulationEndTimeNs, timeStepNs, enableVerboseLogs).None? ==>
              var times := TimeSteps(offsetNs, simulationEndTimeNs, timeStepNs);
              && r == Run(times, |times|, at)
              && forall k :: 0 <= k < |times| ==> times[k] == offsetNs + k * timeStepNs && times[k] < simulationEndTimeNs
  {
    if timeStepNs == 0 {
      return Err(DivisionByZero);
    }
    if offsetNs % timeStepNs != 0 {
      return Err(OffsetNotMultipleOfStep);
    }
    var times := TimeSteps(offsetNs, simulationEndTimeNs, timeStepNs);
    TimeStepsAt(offsetNs, simulationEndTimeNs, timeStepNs);
    var outputs: seq<O> := [];
    var i := 0;
    while i < |times|
      invariant 0 <= i <= |times| && Run(times, i, at) == Ok(outputs)
    {
      var step := at(times[i], Previous(outputs, i));
      if step.Err? {
        RunErrorSticks(times, i + 1, |times|, at);
        return Err(step.error);
      }
      outputs := outputs + [step.value];
      i := i + 1;
    }
    return Ok(outputs);
  }

  // ---------------------------------------------------------------- ISL interfaces

  /** The position Python's `l[e]` reads in a list of length n: a negative index counts from the end. */
  function PyIndex(e: int, n: nat): int
  {
    if e < 0 then e + n else e
  }

  /** `satellites[a]` and `satellites[b]` both exist: each end is an index Python accepts for n satellites. */
  predicate EndsIndexable(l: (int, int), n: nat)
  {
    -(n as int) <= l.0 < n && -(n as int) <= l.1 < n
  }

  /**
   * How many ISL ends of `isls` land on entry `s` of `num_isls_per_sat`,
   * a list of n counters (a link from `s` to itself counts twice).
   */
  function Degree(isls: seq<(int, int)>, n: nat, s: int): nat
  {
    if |isls| == 0 then 0
    else
      var l := isls[|isls| - 1];
      Degree(isls[..|isls| - 1], n, s) + (if PyIndex(l.0, n) == s then 1 else 0) + (if PyIndex(l.1, n) == s then 1 else 0)
  }

  predicate Touches(l: (int, int), x: int, y: int) { l == (x, y) || l == (y, x) }

  /**
   * `sat_neighbor_to_if` after the given links: each link (a, b) sets the
   * entry (a, b) to the count `num_isls_per_sat[a]` holds before it and
   * then (b, a) to `num_isls_per_sat[b]`.  The keys are the ids as read.
   */
  function IfMap(isls: seq<(int, int)>, n: nat): map<(int, int), nat>
  {
    if |isls| == 0 then map[]
    else
      var p := isls[..|isls| - 1];
      var (a, b) := isls[|isls| - 1];
      IfMap(p, n)[(a, b) := Degree(p, n, PyIndex(a, n))][(b, a) := Degree(p, n, PyIndex(b, n))]
  }

  lemma DegreeStep(isls: seq<(int, int)>, n: nat, k: nat, s: int)
    requires k < |isls|
    ensures Degree(isls[..k + 1], n, s)
            == Degree(isls[..k], n, s) + (if PyIndex(isls[k].0, n) == s then 1 else 0) + (if PyIndex(isls[k].1, n) == s then 1 else 0)
  {
    assert isls[..k + 1][..k] == isls[..k];
  }

  lemma IfMapStep(isls: seq<(int, int)>, n: nat, k: nat)
    requires k < |isls|
    ensures IfMap(isls[..k + 1], n) == IfMap(isls[..k], n)[(isls[k].0, isls[k].1) := Degree(isls[..k], n, PyIndex(isls[k].0, n))]
                                                          [(isls[k].1, isls[k].0) := Degree(isls[..k], n, PyIndex(isls[k].1, n))]
  {
    assert isls[..k + 1][..k] == isls[..k];
  }

  /** The map holds an entry (x, y) exactly when some link joins x and y. */
  lemma {:induction false} IfMapKeys(isls: seq<(int, int)>, n: nat, x: int, y: int)
    ensures (x, y) in IfMap(isls, n) <==> exists k :: 0 <= k < |isls| && Touches(isls[k], x, y)
    decreases |isls|
  {
    if |isls| > 0 {
      var p := isls[..|isls| - 1];
      IfMapKeys(p, n, x, y);
      if (x, y) in IfMap(p, n) {
        var k :| 0 <= k < |p| && Touches(p[k], x, y);
        assert isls[k] == p[k];
      }
      if exists k :: 0 <= k < |isls| && Touches(isls[k], x, y) {
        var k :| 0 <= k < |isls| && Touches(isls[k], x, y);
        if k < |p| {
          assert p[k] == isls[k];
        }
      }
    }
  }

  /**
   * The entry for a link's own ends, when no later link joins the same two
   * satellites, is that end's count before the link.
   */
  lemma {:induction false} IfMapAtLink(isls: seq<(int, int)>, n: nat, k: nat)
    requires k < |isls|
    requires forall k2 :: k < k2 < |isls| ==> !Touches(isls[k2], isls[k].0, isls[k].1)
    ensures (isls[k].0, isls[k].1) in IfMap(isls, n) && (isls[k].1, isls[k].0) in IfMap(isls, n)
    ensures IfMap(isls, n)[(isls[k].0, isls[k].1)] == Degree(isls[..k], n, PyIndex(isls[k].0, n))
    ensures IfMap(isls, n)[(isls[k].1, isls[k].0)] == Degree(isls[..k], n, PyIndex(isls[k].1, n))
    decreases |isls|
  {
    var p := isls[..|isls| - 1];
    if k < |p| {
      assert p[k] == isls[k] && p[..k] == isls[..k];
      forall k2 | k < k2 < |p|
        ensures !Touches(p[k2], p[k].0, p[k].1)
      {
        assert p[k2] == isls[k2];
      }
      IfMapAtLink(p, n, k);
      assert !Touches(isls[|isls| - 1], isls[k].0, isls[k].1);
    } else {
      assert p == isls[..k];
    }
  }

  /** More links never lower a count. */
  lemma {:induction false} DegreeMonotone(isls: seq<(int, int)>, n: nat, j: nat, s: int)
    requires j <= |isls|
    ensures Degree(isls[..j], n, s) <= Degree(isls, n, s)
    decreases |isls| - j
  {
    if j < |isls| {
      DegreeStep(isls, n, j, s);
      DegreeMonotone(isls, n, j + 1, s);
    } else {
      assert isls[..j] == isls;
    }
  }

  /**
   * The interface numbers of one satellite are distinct and below its ISL
   * count: neighbours y1 != y2 of x have different entries, each less than
   * the count of x's entry in `num_isls_per_sat`.
   */
  lemma {:induction false} IslInterfacesDistinct(isls: seq<(int, int)>, n: nat, x: int, y1: int, y2: int)
    requires (x, y1) in IfMap(isls, n) && (x, y2) in IfMap(isls, n) && y1 != y2
    ensures IfMap(isls, n)[(x, y1)] != IfMap(isls, n)[(x, y2)]
    ensures IfMap(isls, n)[(x, y1)] < Degree(isls, n, PyIndex(x, n)) && IfMap(isls, n)[(x, y2)] < Degree(isls, n, PyIndex(x, n))
    decreases |isls|
  {
    var p := isls[..|isls| - 1];
    var (a, b) := isls[|isls| - 1];
    var m, mp := IfMap(isls, n), IfMap(p, n);
    var ix := PyIndex(x, n);
    assert Degree(isls, n, ix) == Degree(p, n, ix) + (if PyIndex(a, n) == ix then 1 else 0) + (if PyIndex(b, n) == ix then 1 else 0);
    if Touches((a, b), x, y1) {
      assert m[(x, y1)] == Degree(p, n, ix);
      assert !Touches((a, b), x, y2);
      assert m[(x, y2)] == mp[(x, y2)];
      EntryBelowDegree(p, n, x, y2);
    } else if Touches((a, b), x, y2) {
      assert m[(x, y2)] == Degree(p, n, ix);
      assert m[(x, y1)] == mp[(x, y1)];
      EntryBelowDegree(p, n, x, y1);
    } else {
      assert m[(x, y1)] == mp[(x, y1)] && m[(x, y2)] == mp[(x, y2)];
      IslInterfacesDistinct(p, n, x, y1, y2);
    }
  }

  /** Every entry of a satellite is below its ISL count. */
  lemma {:induction false} EntryBelowDegree(isls: seq<(int, int)>, n: nat, x: int, y: int)
    requires (x, y) in IfMap(isls, n)
    ensures IfMap(isls, n)[(x, y)] < Degree(isls, n, PyIndex(x, n))
    decreases |isls|
  {
    var p := isls[..|isls| - 1];
    var (a, b) := isls[|isls| - 1];
    var ix := PyIndex(x, n);
    assert Degree(isls, n, ix) == Degree(p, n, ix) + (if PyIndex(a, n) == ix then 1 else 0) + (if PyIndex(b, n) == ix then 1 else 0);
    if !Touches((a, b), x, y) {
      EntryBelowDegree(p, n, x, y);
    }
  }

  /**
   * The check of one ISL in the loop: `satellites[a]` and `satellites[b]`
   * raise IndexError for an end outside the list, and then the distance
   * must not exceed the maximum ISL length.
   */
  function IslCheck(l: (int, int), distanceM: real, n: nat, maxIslLengthM: real, k: nat): Option<DynamicStateError>
  {
    if !EndsIndexable(l, n) then Some(SatelliteIndexError(k))
    else if distanceM > maxIslLengthM then Some(IslTooLong(k))
    else None
  }

  /**
   * The ISL loop of generate_dynamic_state_at: every link's ends must be
   * satellites and its length within the maximum ISL length (its distance
   * is given, one per link); link (a, b) gets interface number "a's ISL
   * count so far" at a and "b's ISL count so far" at b, and each count
   * ends as the satellite's ISL degree.  Ids are used as Python indexes,
   * so a negative id counts from the end of the satellite list.
   */
  method IslInterfaces(numSatellites: nat, isls: seq<(int, int)>, islDistancesM: seq<real>, maxIslLengthM: real)
    returns (r: Result<(seq<nat>, map<(int, int), nat>, nat), DynamicStateError>)
    requires |islDistancesM| == |isls|
    ensures r.Err? <==> exists k :: 0 <= k < |isls| && IslCheck(isls[k], islDistancesM[k], numSatellites, maxIslLengthM, k).Some?
    ensures r.Err? ==> exists k :: && 0 <= k < |isls|
                                   && IslCheck(isls[k], islDistancesM[k], numSatellites, maxIslLengthM, k) == Some(r.error)
                                   && forall j :: 0 <= j < k ==> IslCheck(isls[j], islDistancesM[j], numSatellites, maxIslLengthM, j).None?
    ensures r.Ok? ==> && |r.value.0| == numSatellites
                      && (forall s :: 0 <= s < numSatellites ==> r.value.0[s] == Degree(isls, numSatellites, s))
                      && r.value.1 == IfMap(isls, numSatellites)
                      && r.value.2 == |isls|
  {
    var totalNumIsls := 0;
    var numIslsPerSat := seq(numSatellites, _ => 0);
    var satNeighborToIf: map<(int, int), nat> := map[];
    var k := 0;
    while k < |isls|
      invariant 0 <= k <= |isls| && totalNumIsls == k && |numIslsPerSat| == numSatellites
      invariant forall s :: 0 <= s < numSatellites ==> numIslsPerSat[s] == Degree(isls[..k], numSatellites, s)
      invariant satNeighborToIf == IfMap(isls[..k], numSatellites)
      invariant forall j :: 0 <= j < k ==> IslCheck(isls[j], islDistancesM[j], numSatellites, maxIslLengthM, j).None?
    {
      var (a, b) := isls[k];
      if !EndsIndexable((a, b), numSatellites) {
        return Err(SatelliteIndexError(k));
      }
      if islDistancesM[k] > maxIslLengthM {
        return Err(IslTooLong(k));
      }
      var ia, ib := PyIndex(a, numSatellites), PyIndex(b, numSatellites);
      IfMapStep(isls, numSatellites, k);
      satNeighborToIf := satNeighborToIf[(a, b) := numIslsPerSat[ia]][(b, a) := numIslsPerSat[ib]];
      numIslsPerSat := numIslsPerSat[ia := numIslsPerSat[ia] + 1];
      numIslsPerSat := numIslsPerSat[ib := numIslsPerSat[ib] + 1];
      forall s | 0 <= s < numSatellites
        ensures numIslsPerSat[s] == Degree(isls[..k + 1], numSatellites, s)
      {
        DegreeStep(isls, numSatellites, k, s);
      }
      totalNumIsls := totalNumIsls + 1;
      k := k + 1;
    }
    assert isls[..|isls|] == isls;
    return Ok((numIslsPerSat, satNeighborToIf, totalNumIsls));
  }

  /** The counts of the first c entries of `num_isls_per_sat`. */
  function DegreeSum(isls: seq<(int, int)>, n: nat, c: nat): nat
  {
    if c == 0 then 0 else DegreeSum(isls, n, c - 1) + Degree(isls, n, c - 1)
  }

  lemma {:induction false} DegreeSumStep(isls: seq<(int, int)>, n: nat, c: nat)
    requires |isls| > 0
    ensures var l := isls[|isls| - 1];
            DegreeSum(isls, n, c) == DegreeSum(isls[..|isls| - 1], n, c)
                                     + (if 0 <= PyIndex(l.0, n) < c then 1 else 0) + (if 0 <= PyIndex(l.1, n) < c then 1 else 0)
  {
    if c > 0 {
      DegreeSumStep(isls, n, c - 1);
    }
  }

  /** Every link adds two ISL ends: the counts over all satellites sum to twice the link count. */
  lemma {:induction false} DegreeSumTotal(isls: seq<(int, int)>, n: nat)
    requires forall k :: 0 <= k < |isls| ==> EndsIndexable(isls[k], n)
    ensures DegreeSum(isls, n, n) == 2 * |isls|
    decreases |isls|
  {
    if |isls| == 0 {
      DegreeSumEmpty(n, n);
    } else {
      DegreeSumStep(isls, n, n);
      assert EndsIndexable(isls[|isls| - 1], n);
      DegreeSumTotal(isls[..|isls| - 1], n);
    }
  }

  lemma {:induction false} DegreeSumEmpty(n: nat, c: nat)
    ensures DegreeSum([], n, c) == 0
  {
    if c > 0 {
      DegreeSumEmpty(n, c - 1);
    }
  }

  // ---------------------------------------------------------------- algorithm dispatch

  datatype Algorithm =
    | FreeOneOnlyOverIsls
    | FreeGsOneSatManyOnlyOverIsls
    | FreeOneOnlyGsRelays
    | PairedManyOnlyOverIsls

  function AlgorithmName(a: Algorithm): string
  {
    match a
    case FreeOneOnlyOverIsls => "algorithm_free_one_only_over_isls"
    case FreeGsOneSatManyOnlyOverIsls => "algorithm_free_gs_one_sat_many_only_over_isls"
    case FreeOneOnlyGsRelays => "algorithm_free_one_only_gs_relays"
    case PairedManyOnlyOverIsls => "algorithm_paired_many_only_over_isls"
  }

  /** The if/elif chain on `dynamic_state_algorithm`; any other name raises. */
  function SelectAlgorithm(name: string): (r: Result<Algorithm, DynamicStateError>)
    ensures r.Ok? ==> AlgorithmName(r.value) == name
    ensures r.Err? ==> r.error == UnknownAlgorithm && forall a: Algorithm :: AlgorithmName(a) != name
  {
    if name == "algorithm_free_one_only_over_isls" then Ok(FreeOneOnlyOverIsls)
    else if name == "algorithm_free_gs_one_sat_many_only_over_isls" then Ok(FreeGsOneSatManyOnlyOverIsls)
    else if name == "algorithm_free_one_only_gs_relays" then Ok(FreeOneOnlyGsRelays)
    else if name == "algorithm_paired_many_only_over_isls" then Ok(PairedManyOnlyOverIsls)
    else Err(UnknownAlgorithm)
  }

  /** Each algorithm is selected by its own name. */
  lemma SelectAlgorithmByName(a: Algorithm)
    ensures SelectAlgorithm(AlgorithmName(a)) == Ok(a)
  {
  }
}
