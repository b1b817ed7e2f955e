/**
  The SplashKit timer a lever uses for debouncing, reduced to what the
  lever reads: whether it is running and how many ticks have elapsed since
  it was started or last reset. The clock itself is outside the model: the
  elapsed ticks arrive through Advance.
 */
module Timers {

  datatype Timer = Timer(started: bool, ticks: nat)

  /** A fresh timer: not started. */
  function NewTimer(): (r: Timer)
    ensures !r.started && r.ticks == 0
  {
    Timer(false, 0)
  }

  /** Start: running from zero. */
  function Start(t: Timer): (r: Timer)
    ensures r.started && r.ticks == 0
  {
    Timer(true, 0)
  }

  /** Reset: the count goes back to zero; a running timer keeps running. */
  function Reset(t: Timer): (r: Timer)
    ensures r.started == t.started && r.ticks == 0
  {
    t.(ticks := 0)
  }

  /** Stop: no longer running, and a stopped timer reads zero ticks. */
  function Stop(t: Timer): (r: Timer)
    ensures !r.started && r.ticks == 0
  {
    Timer(false, 0)
  }

  /** The passage of `elapsed` ticks of wall-clock time; only a running timer counts them. */
  function Advance(t: Timer, elapsed: nat): (r: Timer)
    ensures r.started == t.started
    ensures t.started ==> r.ticks == t.ticks + elapsed
    ensures !t.started ==> r == t
  {
    if t.started then t.(ticks := t.ticks + elapsed) else t
  }
}
