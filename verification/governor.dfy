/** The edge-triggered governor (class `VehicleSpeedGovernor`): a pure step function from
    a governor state and a request to the next state and the effects it fires. */
module SpeedGovernor {
  import opened BoundedInts
  import opened Outcomes
  import opened Effects
  import Config
  import Vehicle

  /** The governor's whole state: its configuration, the last reading and the activation flag. */
  datatype Governor = Governor(config: Config.SpeedConfig, vehicle: Vehicle.VehicleState, isActive: bool) {

    function Threshold(): Int32 {
      config.threshold
    }

    function Speed(): Int32 {
      vehicle.currentSpeed
    }

    /** The class invariant: the threshold is positive. */
    predicate Valid() {
      config.Valid()
    }
  }

  /** The snapshot `ShowStatus` reports. */
  datatype Status = Status(currentSpeed: Int32, threshold: Int32, governorActive: bool)

  /** A state change together with the effects fired during it, in firing order. */
  datatype Transition = Transition(governor: Governor, effects: seq<Effect>)

  /** Constructs a governor. A non-positive initial threshold makes construction fail;
      otherwise the governor starts idle at speed 0 with the given threshold. */
  function New(initialThreshold: Int32): (r: Result<Governor, Config.ConfigError>)
    ensures r.Failure? <==> initialThreshold <= 0
    ensures r.Failure? ==> r.error == Config.InvalidThreshold
    ensures r.Success? ==> r.value.Valid()
    ensures r.Success? ==> ShowStatus(r.value) == Status(0, initialThreshold, false)
  {
    match Config.New(initialThreshold)
    case Failure(e) => Failure(e)
    case Success(c) => Success(Governor(c, Vehicle.Initial, false))
  }

  /** Delegates to the configuration. A refusal leaves the governor as it was; an accepted
      threshold replaces the old one and touches neither the reading nor the flag: the
      limit is NOT re-evaluated until the next reading. */
  function SetSpeedThreshold(g: Governor, threshold: Int32): (r: Result<Governor, Config.ConfigError>)
    ensures r.Failure? <==> threshold <= 0
    ensures r.Failure? ==> r.error == Config.InvalidThreshold
    ensures r.Success? ==> r.value.Valid() && r.value.Threshold() == threshold
    ensures r.Success? ==> r.value.vehicle == g.vehicle && r.value.isActive == g.isActive
  {
    match Config.SetThreshold(g.config, threshold)
    case Failure(e) => Failure(e)
    case Success(c) => Success(g.(config := c))
  }

  /** Compares the stored reading with the threshold. Crossing above it from idle fires
      one activation (ECU override, driver alert, log of the current speed and threshold);
      staying above fires nothing; at or below it the flag is cleared silently. */
  function CheckAndEnforceSpeedLimit(g: Governor): (r: Transition)
    ensures r.governor.config == g.config && r.governor.vehicle == g.vehicle
    ensures r.governor.isActive <==> g.Speed() > g.Threshold()
    ensures !g.isActive && g.Speed() > g.Threshold() ==> r.effects == Activation(g.Speed(), g.Threshold())
    ensures g.isActive || g.Speed() <= g.Threshold() ==> r.effects == []
  {
    if g.Speed() > g.Threshold() then
      if !g.isActive then
        Transition(g.(isActive := true), Activation(g.Speed(), g.Threshold()))
      else
        Transition(g, [])
    else
      Transition(g.(isActive := false), [])
  }

  /** Stores the reading, whatever its value, then evaluates the limit against it. */
  function UpdateVehicleSpeed(g: Governor, speed: Int32): (r: Transition)
    ensures r.governor.Speed() == speed && r.governor.config == g.config
    ensures r.governor.isActive <==> speed > g.Threshold()
    ensures r.effects != [] <==> !g.isActive && speed > g.Threshold()
    ensures r.effects != [] ==> r.effects == Activation(speed, g.Threshold())
    ensures g.Valid() ==> ActivationTrace(r.effects)
  {
    CheckAndEnforceSpeedLimit(g.(vehicle := Vehicle.UpdateSpeed(g.vehicle, speed)))
  }

  /** A pure read of the governor's state. */
  function ShowStatus(g: Governor): (s: Status)
    ensures s.currentSpeed == g.Speed() && s.threshold == g.Threshold() && s.governorActive == g.isActive
  {
    Status(g.Speed(), g.Threshold(), g.isActive)
  }

  /** The status reflects the last reading, whatever came before it. */
  lemma StatusAfterReading(g: Governor, speed: Int32)
    ensures ShowStatus(UpdateVehicleSpeed(g, speed).governor) == Status(speed, g.Threshold(), speed > g.Threshold())
  {
  }
}
