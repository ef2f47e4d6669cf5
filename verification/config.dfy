/** The speed-threshold configuration (class `SpeedConfig`). */
module Config {
  import opened BoundedInts
  import opened Outcomes

  /** The one way a configuration request is refused (an `ArgumentException` in the source). */
  datatype ConfigError = InvalidThreshold

  /** The configured maximum permitted speed, in km/h. */
  datatype SpeedConfig = SpeedConfig(threshold: Int32) {

    /** The invariant every configuration the governor holds keeps. */
    predicate Valid() {
      threshold > 0
    }
  }

  /** Validates and installs a new threshold. A non-positive value is refused and the
      caller keeps its configuration; an accepted value replaces the old one entirely. */
  function SetThreshold(c: SpeedConfig, threshold: Int32): (r: Result<SpeedConfig, ConfigError>)
    ensures r.Failure? <==> threshold <= 0
    ensures r.Failure? ==> r.error == InvalidThreshold
    ensures r.Success? ==> r.value.Valid() && r.value.threshold == threshold
  {
    if threshold <= 0 then Failure(InvalidThreshold) else Success(SpeedConfig(threshold))
  }

  /** The constructor: the property starts zero-initialised and the constructor body runs
      `SetThreshold`, so a configuration exists only if its initial threshold is accepted. */
  function New(initialThreshold: Int32): (r: Result<SpeedConfig, ConfigError>)
    ensures r.Failure? <==> initialThreshold <= 0
    ensures r.Success? ==> r.value.Valid() && r.value.threshold == initialThreshold
  {
    SetThreshold(SpeedConfig(0), initialThreshold)
  }

  /** An accepted threshold does not depend on what was configured before it. */
  lemma SetThresholdForgetsPrevious(c: SpeedConfig, d: SpeedConfig, threshold: Int32)
    ensures SetThreshold(c, threshold) == SetThreshold(d, threshold)
  {
  }
}
