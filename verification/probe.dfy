/** The probe primitive (`probeImageUrl` in utils.js) as a settle-once state
    machine.

    A probe arms a timer and starts loading the image. Three callbacks may run:
    the timer, the image's load handler and its error handler. A shared
    `finished` flag lets only the first of them resolve the promise: load
    resolves `true`, error and timeout resolve `false`. Load and error also
    clear the timer, so a cleared timer never calls back.
 */
module Probe {

  datatype ProbeEvent = TimerFired | ImageLoaded | ImageErrored

  /** `resolved` lists every value passed to `resolve`, in order. */
  datatype ProbeState = ProbeState(finished: bool, timerArmed: bool, resolved: seq<bool>)

  /** The state right after the probe has started. */
  const Started: ProbeState := ProbeState(false, true, [])

  /** One callback. A timer that was cleared, or that has already fired, does
      not fire (again), so its event leaves the state as it is. */
  function Handle(s: ProbeState, e: ProbeEvent): ProbeState {
    match e
    case TimerFired =>
      if s.timerArmed && !s.finished then ProbeState(true, false, s.resolved + [false])
      else s.(timerArmed := false)
    case ImageLoaded =>
      if s.finished then s else ProbeState(true, false, s.resolved + [true])
    case ImageErrored =>
      if s.finished then s else ProbeState(true, false, s.resolved + [false])
  }

  /** The state after the callbacks `evs` ran, in that order. */
  function Run(evs: seq<ProbeEvent>): (s: ProbeState)
    ensures s.finished <==> |evs| > 0
    ensures |evs| == 0 ==> s.resolved == []
    ensures |evs| > 0 ==> s.resolved == [evs[0] == ImageLoaded]
    ensures |evs| > 0 && evs[0] != TimerFired ==> !s.timerArmed
    decreases |evs|
  {
    if |evs| == 0 then Started else Handle(Run(evs[..|evs| - 1]), evs[|evs| - 1])
  }

  /** The value the probe's promise settles to, once some callback has run. */
  function Outcome(evs: seq<ProbeEvent>): (ok: bool)
    requires |evs| > 0
    ensures ok <==> evs[0] == ImageLoaded
    ensures |Run(evs).resolved| == 1
  {
    Run(evs).resolved[0]
  }

  /** Callbacks that run after the probe settled change nothing it reported. */
  lemma LateEventsIgnored(evs: seq<ProbeEvent>, later: seq<ProbeEvent>)
    requires |evs| > 0
    ensures Run(evs + later).resolved == Run(evs).resolved
    ensures Outcome(evs + later) == Outcome(evs)
  {
    assert (evs + later)[0] == evs[0];
  }
}
