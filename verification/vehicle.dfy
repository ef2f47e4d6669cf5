/** The last observed vehicle data (class `VehicleState`). */
module Vehicle {
  import opened BoundedInts

  /** Only the most recent speed reading is kept; there is no history. */
  datatype VehicleState = VehicleState(currentSpeed: Int32)

  /** A fresh `VehicleState`: the speed property is zero-initialised. */
  const Initial: VehicleState := VehicleState(0)

  /** Stores a reading unconditionally: any 32-bit value, negative ones included, is accepted. */
  function UpdateSpeed(v: VehicleState, speed: Int32): (r: VehicleState)
    ensures r.currentSpeed == speed
  {
    VehicleState(speed)
  }

  /** A reading overwrites its predecessor: the result does not depend on the earlier state. */
  lemma UpdateSpeedOverwrites(v: VehicleState, w: VehicleState, speed: Int32)
    ensures UpdateSpeed(v, speed) == UpdateSpeed(w, speed)
  {
  }
}
