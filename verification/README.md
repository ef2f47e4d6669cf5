# Vehicle speed governor — Dafny model

This project models the edge-triggered vehicle speed governor of `VehicleSpeedGovernor.cs`.
The governor holds a speed threshold (km/h, always positive), the last observed speed, and an
activation flag. When a speed reading first exceeds the threshold it fires three effects, once
and in this order: an ECU acceleration override, a driver alert, and an activation log entry
recording the speed and threshold. While the speed stays above the threshold it fires nothing
more. When the speed drops to or below the threshold it resets silently.

The mutable C# objects become an immutable `Governor` datatype (`config`, `vehicle`,
`isActive`). Each operation is a pure function from a state and a request to the next state
and a sequence of effect tokens:

- `OverrideAcceleration` stands for `EcuController`.
- `ProvideAlert` stands for `DriverFeedback`.
- `LogGovernorActivation(speed, threshold)` stands for `Logger`.

A refused threshold, which throws `ArgumentException` in the source, becomes a `Failure`
result. A refusal leaves the state unchanged.

Modules, leaves first:

- `Outcomes` (outcomes.dfy): the `Result` and `Outcome` failure-carrying types.
- `BoundedInts` (bounded_ints.dfy): `Int32`, the C# `int`. Values are only compared, so no wrap-around arises.
- `Config` (config.dfy): `SpeedConfig`, covering its constructor and `SetThreshold`.
- `Vehicle` (vehicle.dfy): `VehicleState` and `UpdateSpeed`.
- `Effects` (effects.dfy): effect tokens, the activation triple, and well-formed traces.
- `SpeedGovernor` (governor.dfy): the governor's constructor, `SetSpeedThreshold`, `UpdateVehicleSpeed`, `CheckAndEnforceSpeedLimit` and `ShowStatus`.
- `Sessions` (sessions.dfy): sequences of requests.
  - The final state is determined by the request history.
  - At a fixed threshold, activations happen exactly on rising edges.
- `Scenarios` (scenarios.dfy): concrete request sequences, plus what follows from a threshold change not re-evaluating the limit.

Two behaviours of the code shape the model:

- **Negative speeds.** `VehicleState.UpdateSpeed` (VehicleSpeedGovernor.cs:30-32) stores any `int`, so negative readings are accepted.
- **Threshold changes.** `SetSpeedThreshold` (VehicleSpeedGovernor.cs:86-89) does not call `CheckAndEnforceSpeedLimit`, so the flag changes only on a speed reading.
  - As a consequence, "active implies speed > threshold" is not an invariant of the reachable states (`Scenarios.RaisedThresholdLeavesFlagStale`).
  - What does hold is `Sessions.RunFlagIsLastEvaluation`: the flag records whether the last reading exceeded the threshold in force when that reading arrived.

## Model

| member | source | states |
|---|---|---|
| Config.SetThreshold | VehicleSpeedGovernor.cs:15-20 | a threshold is refused (InvalidThreshold) exactly when it is <= 0; an accepted one becomes the stored threshold, which is then positive |
| Config.New | VehicleSpeedGovernor.cs:8-13 | a configuration exists exactly when its initial threshold is positive, and then holds that threshold |
| Config.SetThresholdForgetsPrevious | VehicleSpeedGovernor.cs:15-20 | the outcome of setting a threshold does not depend on the previously stored one |
| Vehicle.UpdateSpeed | VehicleSpeedGovernor.cs:28-32 | any reading, negative included, is stored without validation |
| Vehicle.UpdateSpeedOverwrites | VehicleSpeedGovernor.cs:28-32 | a reading overwrites the previous speed: no history influences the result |
| Effects.ActivationTraceLength | VehicleSpeedGovernor.cs:101-107 | a trace made of activations holds exactly three effects per activation log entry |
| SpeedGovernor.New | VehicleSpeedGovernor.cs:76-84 | construction fails exactly for a non-positive threshold; otherwise the governor is valid and reports speed 0 (`Vehicle.Initial`, the zero default of the speed property at line 28), the given threshold, inactive |
| SpeedGovernor.SetSpeedThreshold | VehicleSpeedGovernor.cs:86-89 | refused exactly for a threshold <= 0; when accepted the threshold is replaced and the speed and flag are untouched (no re-evaluation) |
| SpeedGovernor.CheckAndEnforceSpeedLimit | VehicleSpeedGovernor.cs:97-113 | the flag becomes speed > threshold; an idle-to-over crossing fires override, alert, log(speed, threshold) in that order; otherwise nothing fires |
| SpeedGovernor.UpdateVehicleSpeed | VehicleSpeedGovernor.cs:91-95 | the reading is stored, threshold untouched, flag equals reading > threshold; effects fire exactly on an idle-to-over crossing and then form one activation |
| SpeedGovernor.ShowStatus | VehicleSpeedGovernor.cs:115-118 | a pure read: the snapshot carries exactly the stored speed, the threshold and the activation flag, and the state is not changed |
| SpeedGovernor.StatusAfterReading | VehicleSpeedGovernor.cs:115-118 | after a reading the status snapshot shows that reading, the unchanged threshold, and whether the reading is over it |
| Sessions.Step | VehicleSpeedGovernor.cs:86-112 | a request fails exactly when it is a non-positive threshold, and then changes nothing; threshold requests fire nothing and keep reading and flag; a reading is stored, sets the flag to reading > threshold, and fires one activation (override, alert, log) exactly on an idle-to-over crossing; validity is preserved |
| Sessions.Run | VehicleSpeedGovernor.cs:86-113 | over any request sequence the threshold stays positive, the effects are whole activations logging a speed above a positive threshold, and there is at most one activation per request |
| Sessions.ReachableStatesValid | VehicleSpeedGovernor.cs:8-20 | every state reachable from a constructed governor has a positive threshold |
| Sessions.RunThresholdIsLastAccepted | VehicleSpeedGovernor.cs:15-20 | after a request sequence the threshold is the last accepted one, or the initial configuration if none was accepted |
| Sessions.RunSpeedIsLastReading | VehicleSpeedGovernor.cs:30-32 | after a request sequence the speed is the last reading, or the initial one if there was none |
| Sessions.RunFlagWithoutReadings | VehicleSpeedGovernor.cs:86-89 | a request sequence without readings leaves the activation flag at its initial value: threshold changes never re-evaluate it |
| Sessions.RunFlagIsLastEvaluation | VehicleSpeedGovernor.cs:97-113 | the flag says whether the last reading exceeded the threshold in force when that reading arrived, whatever thresholds were set afterwards |
| Sessions.ReadingsFinalState | VehicleSpeedGovernor.cs:91-112 | readings never move the threshold; afterwards the speed is the last reading and the flag says whether it is above the threshold (no readings: state unchanged) |
| Sessions.ReadingsFireRisingActivations | VehicleSpeedGovernor.cs:97-113 | at a fixed threshold the effect trace is exactly one activation (override, alert, log of that reading and the threshold) per rising edge, in arrival order, and nothing else |
| Sessions.ActivationsOnRisingEdges | VehicleSpeedGovernor.cs:99-107 | at a fixed threshold, the number of activation logs equals the number of rising edges (from idle or from at-or-below to above), the logged speeds are exactly the rising readings in arrival order, and each log records that threshold |
| Sessions.SteadyOverspeedFiresOnce | VehicleSpeedGovernor.cs:99-107 | repeating one above-threshold reading fires one activation if the governor was idle and none if it was active, never on the repeats |
| Scenarios.RaisedThresholdLeavesFlagStale | VehicleSpeedGovernor.cs:86-113 | raising the threshold to or above the speed while active leaves the flag set though the speed is not over; the next such reading clears it silently |
| Scenarios.LoweredThresholdDefersActivation | VehicleSpeedGovernor.cs:86-113 | lowering the threshold below the speed while idle does not activate; the next reading at that speed fires the activation with the new threshold |
| Scenarios.EdgeTriggerExample | VehicleSpeedGovernor.cs:91-113 | threshold 100 and readings 50, 150, 160, 90, 150 fire exactly two activations, each logging (150, 100) |
| Scenarios.BoundaryExample | VehicleSpeedGovernor.cs:99-112 | at threshold 80 a reading of 80 is not over the limit; 81 then fires one activation logging (81, 80) |
| Scenarios.InitialStatusExample | VehicleSpeedGovernor.cs:76-84 | a governor built with threshold 60 reports speed 0, threshold 60, inactive |
| Scenarios.InvalidThresholdExample | VehicleSpeedGovernor.cs:15-18 | thresholds 0 and -5 are refused at construction and at reconfiguration, leaving the state unchanged |

## Left out

- Console output: every `Console.WriteLine` message (lines 21, 33, 42, 51, 61, 117) is presentation. `ShowStatus` is modelled as returning the snapshot (speed, threshold, active).
- `Console.Beep()` (line 52) is a host audio side effect.
- What `EcuController`, `DriverFeedback` and `Logger` actually do. Each is an opaque token in the emitted effect trace, and the order of the tokens is the order of the calls.
- Exception types and message texts: only the fact that `ArgumentException` is a rejection is modelled.
- Object identity and mutation: the governor's private fields become one immutable value that each operation returns anew.
