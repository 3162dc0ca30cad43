/** An abstract repeating animation timer, standing for the engine timer held
    in `AnimationTimer`. Time is counted in whole ticks of the host clock. */
module Timing {
  import opened Arithmetic

  /** `duration` is the per-frame time, `elapsed` the time accumulated towards
      the next elapse, and `justFinished` whether the last tick elapsed it. */
  datatype Timer = Timer(duration: nat, elapsed: nat, justFinished: bool)

  /** `reset`: zero the accumulator and forget any elapse; keep the duration. */
  function Reset(t: Timer): (r: Timer)
    ensures r.duration == t.duration && r.elapsed == 0 && !r.justFinished
  {
    Timer(t.duration, 0, false)
  }

  /** `set_duration`: change the per-frame time only. */
  function SetDuration(t: Timer, d: nat): (r: Timer)
    ensures r.duration == d && r.elapsed == t.elapsed && r.justFinished == t.justFinished
  {
    t.(duration := d)
  }

  /** `tick` of a repeating timer: advance by `delta`; the timer has just
      finished when the accumulated time reaches the duration, and it keeps
      the remainder (nothing, for a zero duration) towards the next elapse. */
  function Tick(t: Timer, delta: nat): (r: Timer)
    ensures r.duration == t.duration
    ensures r.justFinished <==> t.elapsed + delta >= t.duration
    ensures t.duration > 0 ==> r.elapsed < t.duration
    ensures t.duration > 0 && !r.justFinished ==> r.elapsed == t.elapsed + delta
    ensures t.duration > 0 && r.justFinished ==> r.elapsed == (t.elapsed + delta) % t.duration
  {
    var total := t.elapsed + delta;
    if total < t.duration then Timer(t.duration, total, false)
    else if t.duration == 0 then Timer(0, 0, true)
    else Timer(t.duration, total % t.duration, true)
  }

  /** A tick of exactly one duration elapses the timer once and leaves the
      time accumulated towards the next elapse where it was. */
  lemma TickOneFrame(t: Timer)
    requires 0 < t.duration && t.elapsed < t.duration
    ensures Tick(t, t.duration) == Timer(t.duration, t.elapsed, true)
  {
    ModUnique(t.elapsed + t.duration, t.duration, 1, t.elapsed);
  }
}
