/** Sequences of requests fed to one governor, and what they add up to: activations happen
    exactly on rising edges, and the final state is determined by the last accepted
    threshold and the last reading. */
module Sessions {
  import opened BoundedInts
  import opened Outcomes
  import opened Effects
  import Config
  import opened SpeedGovernor

  /** A request from the embedding application. */
  datatype Command = ThresholdRequest(value: Int32) | SpeedReading(value: Int32)

  /** The result of one request: the next state, the effects fired, and whether it was accepted. */
  datatype StepResult = StepResult(governor: Governor, effects: seq<Effect>, outcome: Outcome<Config.ConfigError>)

  /** Serves one request. A refused threshold is reported and changes nothing. */
  function Step(g: Governor, c: Command): (r: StepResult)
    ensures r.outcome.Fail? <==> c.ThresholdRequest? && c.value <= 0
    ensures r.outcome.Fail? ==> r.governor == g && r.effects == []
    ensures c.ThresholdRequest? ==> r.effects == [] && r.governor.vehicle == g.vehicle && r.governor.isActive == g.isActive
    ensures c.ThresholdRequest? && r.outcome.Pass? ==> r.governor.Threshold() == c.value
    ensures c.SpeedReading? ==> r.governor.config == g.config && r.governor.Speed() == c.value
    ensures c.SpeedReading? ==> (r.governor.isActive <==> c.value > g.Threshold())
    ensures c.SpeedReading? ==> (r.effects != [] <==> !g.isActive && c.value > g.Threshold())
    ensures c.SpeedReading? && r.effects != [] ==> r.effects == Activation(c.value, g.Threshold())
    ensures g.Valid() ==> r.governor.Valid() && ActivationTrace(r.effects)
    ensures LogCount(r.effects) <= 1
  {
    match c
    case ThresholdRequest(t) =>
      (match SetSpeedThreshold(g, t)
       case Failure(e) => StepResult(g, [], Fail(e))
       case Success(g') => StepResult(g', [], Pass))
    case SpeedReading(s) =>
      var t := UpdateVehicleSpeed(g, s);
      LogCountActivation(s, g.Threshold());
      StepResult(t.governor, t.effects, Pass)
  }

  /** Serves the requests in order and concatenates their effects. Whatever the requests,
      the threshold stays positive, the effects form whole activations, and there is at
      most one activation per request. */
  function Run(g: Governor, cmds: seq<Command>): (r: Transition)
    ensures g.Valid() ==> r.governor.Valid() && ActivationTrace(r.effects)
    ensures LogCount(r.effects) <= |cmds|
    decreases |cmds|
  {
    if |cmds| == 0 then Transition(g, [])
    else
      var before := Run(g, cmds[..|cmds| - 1]);
      var step := Step(before.governor, cmds[|cmds| - 1]);
      var r := Transition(step.governor, before.effects + step.effects);
      LogCountAppend(before.effects, step.effects);
      if g.Valid() then
        ActivationTraceAppend(before.effects, step.effects);
        r
      else
        r
  }

  /** Serving one more request extends the run by one step. */
  lemma RunSnoc(g: Governor, cmds: seq<Command>, c: Command)
    ensures var before := Run(g, cmds);
      var last := Step(before.governor, c);
      Run(g, cmds + [c]) == Transition(last.governor, before.effects + last.effects)
  {
    assert (cmds + [c])[..|cmds|] == cmds;
  }

  /** Every state reachable from a successfully constructed governor has a positive threshold. */
  lemma ReachableStatesValid(initialThreshold: Int32, cmds: seq<Command>)
    requires New(initialThreshold).Success?
    ensures Run(New(initialThreshold).value, cmds).governor.Valid()
  {
  }

  // ---------------------------------------------------------------------------------
  // The final state in terms of the request history

  /** Request i is a threshold the configuration accepts. */
  predicate Accepted(cmds: seq<Command>, i: int)
    requires 0 <= i < |cmds|
  {
    cmds[i].ThresholdRequest? && cmds[i].value > 0
  }

  /** Request i is the last accepted threshold. */
  predicate LastAccepted(cmds: seq<Command>, i: int)
    requires 0 <= i < |cmds|
  {
    Accepted(cmds, i) && forall j :: i < j < |cmds| ==> !Accepted(cmds, j)
  }

  /** Request i is a speed reading. */
  predicate Reading(cmds: seq<Command>, i: int)
    requires 0 <= i < |cmds|
  {
    cmds[i].SpeedReading?
  }

  /** Request i is the last speed reading. */
  predicate LastReading(cmds: seq<Command>, i: int)
    requires 0 <= i < |cmds|
  {
    Reading(cmds, i) && forall j :: i < j < |cmds| ==> !Reading(cmds, j)
  }

  /** The threshold in force is the last accepted one, or the initial one if none was. */
  lemma {:induction false} RunThresholdIsLastAccepted(g: Governor, cmds: seq<Command>)
    ensures (forall i :: 0 <= i < |cmds| ==> !Accepted(cmds, i)) ==> Run(g, cmds).governor.config == g.config
    ensures forall i :: 0 <= i < |cmds| && LastAccepted(cmds, i) ==> Run(g, cmds).governor.Threshold() == cmds[i].value
    decreases |cmds|
  {
    if |cmds| > 0 {
      var n := |cmds| - 1;
      var p := cmds[..n];
      RunThresholdIsLastAccepted(g, p);
      var before := Run(g, p).governor;
      var after := Step(before, cmds[n]).governor;
      assert Run(g, cmds).governor == after;
      assert forall i :: 0 <= i < n ==> Accepted(p, i) == Accepted(cmds, i);
      if forall i :: 0 <= i < |cmds| ==> !Accepted(cmds, i) {
        assert !Accepted(cmds, n);
      }
      forall i | 0 <= i < |cmds| && LastAccepted(cmds, i)
        ensures after.Threshold() == cmds[i].value
      {
        if i < n {
          assert LastAccepted(p, i);
          assert !Accepted(cmds, n);
        }
      }
    }
  }

  /** The stored speed is the last reading, or the initial one if there was none. */
  lemma {:induction false} RunSpeedIsLastReading(g: Governor, cmds: seq<Command>)
    ensures (forall i :: 0 <= i < |cmds| ==> !Reading(cmds, i)) ==> Run(g, cmds).governor.vehicle == g.vehicle
    ensures forall i :: 0 <= i < |cmds| && LastReading(cmds, i) ==> Run(g, cmds).governor.Speed() == cmds[i].value
    decreases |cmds|
  {
    if |cmds| > 0 {
      var n := |cmds| - 1;
      var p := cmds[..n];
      RunSpeedIsLastReading(g, p);
      var before := Run(g, p).governor;
      var after := Step(before, cmds[n]).governor;
      assert Run(g, cmds).governor == after;
      assert forall i :: 0 <= i < n ==> Reading(p, i) == Reading(cmds, i);
      if forall i :: 0 <= i < |cmds| ==> !Reading(cmds, i) {
        assert !Reading(cmds, n);
      }
      forall i | 0 <= i < |cmds| && LastReading(cmds, i)
        ensures after.Speed() == cmds[i].value
      {
        if i < n {
          assert LastReading(p, i);
          assert !Reading(cmds, n);
        }
      }
    }
  }

  /** Without any reading the activation flag keeps its initial value. */
  lemma {:induction false} RunFlagWithoutReadings(g: Governor, cmds: seq<Command>)
    requires forall i :: 0 <= i < |cmds| ==> !Reading(cmds, i)
    ensures Run(g, cmds).governor.isActive == g.isActive
    decreases |cmds|
  {
    if |cmds| > 0 {
      var n := |cmds| - 1;
      var p := cmds[..n];
      assert forall i :: 0 <= i < n ==> Reading(p, i) == Reading(cmds, i);
      RunFlagWithoutReadings(g, p);
      assert !Reading(cmds, n);
    }
  }

  /** The activation flag is the verdict of the last evaluation: whether the last reading
      exceeded the threshold in force when it arrived. Threshold changes since then are
      not reflected. */
  lemma {:induction false} RunFlagIsLastEvaluation(g: Governor, cmds: seq<Command>, i: int)
    requires 0 <= i < |cmds| && LastReading(cmds, i)
    ensures Run(g, cmds).governor.isActive <==> cmds[i].value > Run(g, cmds[..i]).governor.Threshold()
    decreases |cmds|
  {
    var n := |cmds| - 1;
    var p := cmds[..n];
    if i < n {
      assert Reading(p, i);
      assert forall j :: i < j < n ==> Reading(p, j) == Reading(cmds, j);
      RunFlagIsLastEvaluation(g, p, i);
      assert !Reading(cmds, n);
      assert p[..i] == cmds[..i];
    } else {
      assert cmds[..i] == p;
    }
  }

  // ---------------------------------------------------------------------------------
  // Readings at a fixed threshold: activations happen exactly on rising edges

  /** The requests that feed the given readings in order. */
  function Readings(speeds: seq<Int32>): (cmds: seq<Command>)
    ensures |cmds| == |speeds|
    ensures forall i :: 0 <= i < |speeds| ==> cmds[i] == SpeedReading(speeds[i])
  {
    seq(|speeds|, i requires 0 <= i < |speeds| => SpeedReading(speeds[i]))
  }

  /** Reading i crosses from at-or-below the threshold (or, for the first reading, from an
      idle governor) to above it. */
  predicate RisingAt(wasActive: bool, threshold: Int32, speeds: seq<Int32>, i: int)
    requires 0 <= i < |speeds|
  {
    speeds[i] > threshold && (if i == 0 then !wasActive else speeds[i - 1] <= threshold)
  }

  /** The positions of all rising edges. */
  function RisingEdges(wasActive: bool, threshold: Int32, speeds: seq<Int32>): (edges: set<int>)
    ensures forall i :: i in edges ==> 0 <= i < |speeds|
  {
    set i | 0 <= i < |speeds| && RisingAt(wasActive, threshold, speeds, i)
  }

  /** Appending a reading adds its position to the rising edges exactly when it rises. */
  lemma RisingEdgesSnoc(wasActive: bool, threshold: Int32, speeds: seq<Int32>)
    requires |speeds| > 0
    ensures var n := |speeds| - 1;
      RisingEdges(wasActive, threshold, speeds)
        == RisingEdges(wasActive, threshold, speeds[..n]) + (if RisingAt(wasActive, threshold, speeds, n) then {n} else {})
  {
  }

  /** The readings at rising edges, in arrival order. */
  function RisingReadings(wasActive: bool, threshold: Int32, speeds: seq<Int32>): (readings: seq<Int32>)
    ensures |readings| <= |speeds|
    ensures forall k :: 0 <= k < |readings| ==> readings[k] > threshold
    decreases |speeds|
  {
    if |speeds| == 0 then []
    else
      var n := |speeds| - 1;
      RisingReadings(wasActive, threshold, speeds[..n]) + (if RisingAt(wasActive, threshold, speeds, n) then [speeds[n]] else [])
  }

  /** Feeding one more reading extends the run by one speed update. */
  lemma ReadingsSnoc(g: Governor, speeds: seq<Int32>)
    requires |speeds| > 0
    ensures var before := Run(g, Readings(speeds[..|speeds| - 1]));
      var last := UpdateVehicleSpeed(before.governor, speeds[|speeds| - 1]);
      Run(g, Readings(speeds)) == Transition(last.governor, before.effects + last.effects)
  {
    var n := |speeds| - 1;
    assert Readings(speeds) == Readings(speeds[..n]) + [SpeedReading(speeds[n])];
    RunSnoc(g, Readings(speeds[..n]), SpeedReading(speeds[n]));
  }

  /** Readings never move the threshold; afterwards the speed is the last reading and the
      flag says whether it is above the threshold. */
  lemma {:induction false} ReadingsFinalState(g: Governor, speeds: seq<Int32>)
    ensures var r := Run(g, Readings(speeds));
      && r.governor.config == g.config
      && (|speeds| == 0 ==> r.governor == g)
      && (|speeds| > 0 ==>
            && r.governor.Speed() == speeds[|speeds| - 1]
            && (r.governor.isActive <==> speeds[|speeds| - 1] > g.Threshold()))
    decreases |speeds|
  {
    if |speeds| > 0 {
      ReadingsSnoc(g, speeds);
      ReadingsFinalState(g, speeds[..|speeds| - 1]);
    }
  }

  /** The reference trace: one activation at each rising edge, in arrival order, each
      logging that reading and the threshold. */
  function RisingActivations(wasActive: bool, threshold: Int32, speeds: seq<Int32>): (trace: seq<Effect>)
    ensures |trace| <= 3 * |speeds|
    decreases |speeds|
  {
    if |speeds| == 0 then []
    else
      var n := |speeds| - 1;
      RisingActivations(wasActive, threshold, speeds[..n])
        + (if RisingAt(wasActive, threshold, speeds, n) then Activation(speeds[n], threshold) else [])
  }

  /** Over readings at a fixed threshold the governor fires exactly the reference trace:
      one activation at each rising edge, nothing anywhere else. */
  lemma {:induction false} ReadingsFireRisingActivations(g: Governor, speeds: seq<Int32>)
    ensures Run(g, Readings(speeds)).effects == RisingActivations(g.isActive, g.Threshold(), speeds)
    decreases |speeds|
  {
    if |speeds| > 0 {
      var n := |speeds| - 1;
      ReadingsSnoc(g, speeds);
      ReadingsFinalState(g, speeds[..n]);
      ReadingsFireRisingActivations(g, speeds[..n]);
    }
  }

  /** The reference trace holds one log entry per rising edge. */
  lemma {:induction false} RisingActivationsCount(wasActive: bool, threshold: Int32, speeds: seq<Int32>)
    ensures LogCount(RisingActivations(wasActive, threshold, speeds)) == |RisingEdges(wasActive, threshold, speeds)|
    decreases |speeds|
  {
    if |speeds| > 0 {
      var n := |speeds| - 1;
      var last := if RisingAt(wasActive, threshold, speeds, n) then Activation(speeds[n], threshold) else [];
      RisingActivationsCount(wasActive, threshold, speeds[..n]);
      LogCountAppend(RisingActivations(wasActive, threshold, speeds[..n]), last);
      LogCountActivation(speeds[n], threshold);
      RisingEdgesSnoc(wasActive, threshold, speeds);
    } else {
      assert RisingEdges(wasActive, threshold, speeds) == {};
    }
  }

  /** The reference trace logs exactly the rising readings, in order, all with the threshold. */
  lemma {:induction false} RisingActivationsLogs(wasActive: bool, threshold: Int32, speeds: seq<Int32>)
    ensures LoggedSpeeds(RisingActivations(wasActive, threshold, speeds)) == RisingReadings(wasActive, threshold, speeds)
    ensures LogsThreshold(RisingActivations(wasActive, threshold, speeds), threshold)
    decreases |speeds|
  {
    if |speeds| > 0 {
      var n := |speeds| - 1;
      var last := if RisingAt(wasActive, threshold, speeds, n) then Activation(speeds[n], threshold) else [];
      RisingActivationsLogs(wasActive, threshold, speeds[..n]);
      LoggedSpeedsAppend(RisingActivations(wasActive, threshold, speeds[..n]), last);
      LoggedSpeedsActivation(speeds[n], threshold);
      LogsThresholdAppend(RisingActivations(wasActive, threshold, speeds[..n]), last, threshold);
    }
  }

  /** Over readings at a fixed threshold, the governor logs one activation per rising edge
      and no more, the logs record exactly the rising readings in order, and every log
      records that threshold. */
  lemma ActivationsOnRisingEdges(g: Governor, speeds: seq<Int32>)
    ensures var e := Run(g, Readings(speeds)).effects;
      && LogCount(e) == |RisingEdges(g.isActive, g.Threshold(), speeds)|
      && LoggedSpeeds(e) == RisingReadings(g.isActive, g.Threshold(), speeds)
      && LogsThreshold(e, g.Threshold())
  {
    ReadingsFireRisingActivations(g, speeds);
    RisingActivationsCount(g.isActive, g.Threshold(), speeds);
    RisingActivationsLogs(g.isActive, g.Threshold(), speeds);
  }

  /** Repeating one above-threshold reading fires at most one activation: on the first
      reading if the governor was idle, never on the repeats. */
  lemma {:induction false} SteadyOverspeedFiresOnce(g: Governor, speed: Int32, n: nat)
    requires speed > g.Threshold()
    ensures Run(g, Readings(seq(n, _ => speed))).effects
      == (if n > 0 && !g.isActive then Activation(speed, g.Threshold()) else [])
    decreases n
  {
    if n > 0 {
      var speeds := seq(n, _ => speed);
      assert Readings(speeds)[..n - 1] == Readings(seq(n - 1, _ => speed));
      SteadyOverspeedFiresOnce(g, speed, n - 1);
      if n > 1 {
        ReadingsFinalState(g, seq(n - 1, _ => speed));
      }
    }
  }
}
