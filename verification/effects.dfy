/** The governor's three collaborators (`EcuController`, `DriverFeedback`, `Logger`), each
    reduced to the token it contributes to the emitted effect trace. */
module Effects {
  import opened BoundedInts

  datatype Effect =
    | OverrideAcceleration                                         // EcuController
    | ProvideAlert                                                 // DriverFeedback
    | LogGovernorActivation(currentSpeed: Int32, threshold: Int32) // Logger

  /** The effects of one activation, in the order the governor fires them. */
  function Activation(speed: Int32, threshold: Int32): (e: seq<Effect>)
    ensures |e| == 3 && e[2].LogGovernorActivation?
    ensures e[2].currentSpeed == speed && e[2].threshold == threshold
  {
    [OverrideAcceleration, ProvideAlert, LogGovernorActivation(speed, threshold)]
  }

  /** A trace made only of complete activations, each logging a speed strictly above a
      positive threshold. */
  predicate ActivationTrace(e: seq<Effect>)
    decreases |e|
  {
    || |e| == 0
    || (&& |e| >= 3
        && e[2].LogGovernorActivation?
        && e[..3] == Activation(e[2].currentSpeed, e[2].threshold)
        && e[2].currentSpeed > e[2].threshold > 0
        && ActivationTrace(e[3..]))
  }

  /** Number of activation log entries in a trace. */
  function LogCount(e: seq<Effect>): (n: nat)
    ensures n <= |e|
    decreases |e|
  {
    if |e| == 0 then 0
    else (if e[0].LogGovernorActivation? then 1 else 0) + LogCount(e[1..])
  }

  /** Every activation log entry in the trace records the given threshold. */
  predicate LogsThreshold(e: seq<Effect>, threshold: Int32) {
    forall k :: 0 <= k < |e| && e[k].LogGovernorActivation? ==> e[k].threshold == threshold
  }

  lemma {:induction false} LogCountAppend(a: seq<Effect>, b: seq<Effect>)
    ensures LogCount(a + b) == LogCount(a) + LogCount(b)
    decreases |a|
  {
    if |a| == 0 {
      assert a + b == b;
    } else {
      assert (a + b)[1..] == a[1..] + b;
      LogCountAppend(a[1..], b);
    }
  }

  lemma {:induction false} ActivationTraceAppend(a: seq<Effect>, b: seq<Effect>)
    requires ActivationTrace(a) && ActivationTrace(b)
    ensures ActivationTrace(a + b)
    decreases |a|
  {
    if |a| == 0 {
      assert a + b == b;
    } else {
      assert (a + b)[..3] == a[..3];
      assert (a + b)[3..] == a[3..] + b;
      ActivationTraceAppend(a[3..], b);
    }
  }

  /** One activation carries exactly one log entry. */
  lemma LogCountActivation(speed: Int32, threshold: Int32)
    ensures LogCount(Activation(speed, threshold)) == 1
  {
    var e := Activation(speed, threshold);
    assert LogCount(e[2..]) == 1 by {
      assert e[2..][1..] == [];
    }
    assert e[1..][1..] == e[2..];
    assert LogCount(e[1..]) == 1;
  }

  /** Activations never come apart: a trace of them holds exactly three effects per log entry. */
  lemma {:induction false} ActivationTraceLength(e: seq<Effect>)
    requires ActivationTrace(e)
    ensures |e| == 3 * LogCount(e)
    decreases |e|
  {
    if |e| > 0 {
      assert e == e[..3] + e[3..];
      LogCountActivation(e[2].currentSpeed, e[2].threshold);
      LogCountAppend(e[..3], e[3..]);
      ActivationTraceLength(e[3..]);
    }
  }

  lemma LogsThresholdAppend(a: seq<Effect>, b: seq<Effect>, threshold: Int32)
    requires LogsThreshold(a, threshold) && LogsThreshold(b, threshold)
    ensures LogsThreshold(a + b, threshold)
  {
  }

  /** The speeds recorded by the activation log entries, in trace order. */
  function LoggedSpeeds(e: seq<Effect>): (speeds: seq<Int32>)
    ensures |speeds| == LogCount(e)
    decreases |e|
  {
    if |e| == 0 then []
    else (if e[0].LogGovernorActivation? then [e[0].currentSpeed] else []) + LoggedSpeeds(e[1..])
  }

  lemma {:induction false} LoggedSpeedsAppend(a: seq<Effect>, b: seq<Effect>)
    ensures LoggedSpeeds(a + b) == LoggedSpeeds(a) + LoggedSpeeds(b)
    decreases |a|
  {
    if |a| == 0 {
      assert a + b == b;
    } else {
      var head := if a[0].LogGovernorActivation? then [a[0].currentSpeed] else [];
      assert (a + b)[0] == a[0];
      assert (a + b)[1..] == a[1..] + b;
      assert LoggedSpeeds(a + b) == head + LoggedSpeeds(a[1..] + b);
      LoggedSpeedsAppend(a[1..], b);
      assert head + (LoggedSpeeds(a[1..]) + LoggedSpeeds(b)) == (head + LoggedSpeeds(a[1..])) + LoggedSpeeds(b);
    }
  }

  /** One activation logs exactly its own speed. */
  lemma LoggedSpeedsActivation(speed: Int32, threshold: Int32)
    ensures LoggedSpeeds(Activation(speed, threshold)) == [speed]
  {
    var e := Activation(speed, threshold);
    assert LoggedSpeeds(e[2..]) == [speed] by {
      assert e[2..][1..] == [];
    }
    assert e[1..][1..] == e[2..];
  }
}
