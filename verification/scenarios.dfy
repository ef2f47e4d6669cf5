/** Concrete request sequences, and the consequences of a threshold change not
    re-evaluating the limit. */
module Scenarios {
  import opened BoundedInts
  import opened Outcomes
  import opened Effects
  import Config
  import Vehicle
  import opened SpeedGovernor
  import opened Sessions

  /** Raising the threshold to or above the current reading while active leaves the flag set
      although the reading is no longer over the limit; the next reading at or below the
      threshold clears it silently. */
  lemma RaisedThresholdLeavesFlagStale(g: Governor, speed: Int32, threshold: Int32)
    requires g.Valid() && speed > g.Threshold() && threshold >= speed
    ensures var raised := SetSpeedThreshold(UpdateVehicleSpeed(g, speed).governor, threshold);
      && raised.Success?
      && raised.value.isActive
      && raised.value.Speed() <= raised.value.Threshold()
      && UpdateVehicleSpeed(raised.value, speed).effects == []
      && !UpdateVehicleSpeed(raised.value, speed).governor.isActive
  {
  }

  /** Lowering the threshold below the current reading while idle does not activate the
      governor; the activation fires at the next reading, logging the new threshold. */
  lemma LoweredThresholdDefersActivation(g: Governor, speed: Int32, threshold: Int32)
    requires speed <= g.Threshold() && 0 < threshold < speed
    ensures var lowered := SetSpeedThreshold(UpdateVehicleSpeed(g, speed).governor, threshold);
      && lowered.Success?
      && !lowered.value.isActive
      && lowered.value.Speed() > lowered.value.Threshold()
      && UpdateVehicleSpeed(lowered.value, speed).effects == Activation(speed, threshold)
  {
  }

  /** Threshold 100, readings 50, 150, 160, 90, 150: two activations, at each 150. */
  lemma EdgeTriggerExample()
    ensures New(100).Success?
    ensures Run(New(100).value, Readings([50, 150, 160, 90, 150])).effects
      == Activation(150, 100) + Activation(150, 100)
  {
    var g := New(100).value;
    var c1, c2, c3, c4, c5 := SpeedReading(50), SpeedReading(150), SpeedReading(160), SpeedReading(90), SpeedReading(150);
    assert Readings([50, 150, 160, 90, 150]) == [] + [c1] + [c2] + [c3] + [c4] + [c5];
    RunSnoc(g, [], c1);
    var g1 := g.(vehicle := Vehicle.VehicleState(50));
    assert Run(g, [] + [c1]) == Transition(g1, []);
    RunSnoc(g, [] + [c1], c2);
    var g2 := g.(vehicle := Vehicle.VehicleState(150), isActive := true);
    assert Run(g, [] + [c1] + [c2]) == Transition(g2, Activation(150, 100));
    RunSnoc(g, [] + [c1] + [c2], c3);
    var g3 := g2.(vehicle := Vehicle.VehicleState(160));
    assert Run(g, [] + [c1] + [c2] + [c3]) == Transition(g3, Activation(150, 100));
    RunSnoc(g, [] + [c1] + [c2] + [c3], c4);
    var g4 := g.(vehicle := Vehicle.VehicleState(90));
    assert Run(g, [] + [c1] + [c2] + [c3] + [c4]) == Transition(g4, Activation(150, 100));
    RunSnoc(g, [] + [c1] + [c2] + [c3] + [c4], c5);
  }

  /** Threshold 80: a reading of exactly 80 is not over the limit; 81 is, and logs (81, 80). */
  lemma BoundaryExample()
    ensures New(80).Success?
    ensures var at := UpdateVehicleSpeed(New(80).value, 80);
      && !at.governor.isActive && at.effects == []
      && UpdateVehicleSpeed(at.governor, 81).governor.isActive
      && UpdateVehicleSpeed(at.governor, 81).effects == Activation(81, 80)
  {
  }

  /** A governor constructed with threshold 60 reports speed 0, threshold 60, inactive. */
  lemma InitialStatusExample()
    ensures New(60).Success? && ShowStatus(New(60).value) == Status(0, 60, false)
  {
  }

  /** A non-positive threshold is refused at construction and at reconfiguration. */
  lemma InvalidThresholdExample(g: Governor)
    ensures New(0).Failure? && New(-5).Failure?
    ensures SetSpeedThreshold(g, 0) == Failure(Config.InvalidThreshold)
    ensures Step(g, ThresholdRequest(-5)) == StepResult(g, [], Fail(Config.InvalidThreshold))
  {
  }
}
