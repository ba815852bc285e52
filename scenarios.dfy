// Typical uses of the periodic task, proved
// from the contracts of its operations alone.
module Scenarios {
  import opened Wrap32
  import opened PeriodicTasks

  /** A task started "now" fires once at its construction time. */
  method FirstPollFires(now: u32, intervalMs: u32, context: int) returns (fired: bool, log: seq<int>)
    ensures fired && log == [context]
  {
    var t := new PeriodicTask(now, intervalMs, true, context, true);
    fired := t.Poll(now);
    log := t.firings;
  }

  /** A task without a callback never fires, however overdue. */
  method NoCallbackNeverFires(now: u32, later: u32, intervalMs: u32) returns (fired: bool)
    ensures !fired
  {
    var t := new PeriodicTask(now, intervalMs, false, 0, true);
    fired := t.Poll(later);
  }

  /** Due across the wrap: next due at 2^32 - 2, polled at 5 after the counter wrapped. */
  method PollAcrossWrap(intervalMs: u32) returns (fired: bool)
    ensures fired
  {
    var t := new PeriodicTask(0xFFFF_FFFE, intervalMs, true, 0, true);
    DueAcrossWrap();
    fired := t.Poll(5);
  }

  /**
   * Coalescing with interval 100 and one poll 250 ms late: one firing, the
   * next due time is 100 ms after the poll, and a second poll at the same
   * time does not fire.
   */
  method CoalesceMissedPeriods(t0: u32) returns (fired: bool, next: u32, again: bool, count: nat)
    ensures fired && next == Add32(Add32(t0, 250), 100) && !again && count == 1
  {
    var t := new PeriodicTask(t0, 100, true, 0, true);
    t.SetCoalesceOverdue(true);
    var now := Add32(t0, 250);
    SubAfterAdd(t0, 250);
    fired := t.Poll(now);
    next := t.GetNextDue();
    DelayedDue(now, 100);
    again := t.Poll(now);
    count := |t.firings|;
  }

  /**
   * Strict catch-up with interval 100 and one poll 250 ms late: one firing,
   * the next due time stays on the original grid at 300 ms, and a second
   * poll at the same time does not fire.
   */
  method StrictMissedPeriods(t0: u32) returns (fired: bool, next: u32, again: bool, count: nat)
    ensures fired && next == Add32(t0, 300) && !again && count == 1
  {
    var t := new PeriodicTask(t0, 100, true, 0, true);
    var now := Add32(t0, 250);
    SubAfterAdd(t0, 250);
    CatchUpStepsForward(now, t0, 100);
    assert CatchUpSteps(now, t0, 100) == 3;
    AdvanceByModular(t0, 100, 3);
    fired := t.Poll(now);
    next := t.GetNextDue();
    again := t.Poll(now);
    count := |t.firings|;
  }

  /**
   * Re-enabling after any time disabled: the backlog is dropped, the poll at
   * the re-enable time fires once, and a second poll at that time does not.
   */
  method ReenableFiresOnce(t0: u32, intervalMs: u32, now: u32) returns (first: bool, second: bool, count: nat)
    ensures first && !second && count == 1
  {
    var t := new PeriodicTask(t0, intervalMs, true, 0, true);
    t.Stop();
    t.Enable(now, true);
    first := t.Poll(now);
    second := t.Poll(now);
    count := |t.firings|;
  }

  /** `stop` then `start(false)`: a poll at the restart time does not fire, for intervals up to 2^31. */
  method StopThenPhasedStart(t0: u32, intervalMs: u32, now: u32) returns (fired: bool)
    requires ClampInterval(intervalMs) as int <= HALF
    ensures !fired
  {
    var t := new PeriodicTask(t0, intervalMs, true, 0, true);
    t.Stop();
    t.Start(now, false);
    DelayedDue(now, ClampInterval(intervalMs));
    fired := t.Poll(now);
  }

  /** With an interval above 2^31, `start(false)` is due at once: `now + interval` wraps to before `now`. */
  method PhasedStartWithHugeInterval(t0: u32, intervalMs: u32, now: u32) returns (fired: bool)
    requires intervalMs as int > HALF
    ensures fired
  {
    var t := new PeriodicTask(t0, intervalMs, true, 0, true);
    t.Start(now, false);
    DelayedDue(now, intervalMs);
    fired := t.Poll(now);
  }

  /** `runOnce` on a disabled task invokes the callback and leaves the schedule alone. */
  method RunOnceWhileStopped(t0: u32, intervalMs: u32, delay: u32, context: int)
    returns (log: seq<int>, enabled: bool, next: u32, interval: u32)
    ensures log == [context] && !enabled && next == Add32(t0, delay) && interval == ClampInterval(intervalMs)
  {
    var t := new PeriodicTask(t0, intervalMs, true, context, true);
    t.SetPhase(t0, delay);
    t.Stop();
    t.RunOnce();
    log := t.firings;
    enabled := t.GetEnabled();
    next := t.GetNextDue();
    interval := t.GetInterval();
  }

  /** The context in force at the poll is the one the firing receives. */
  method ContextReachesFiring(now: u32, intervalMs: u32, first: int, second: int) returns (log: seq<int>)
    ensures log == [second]
  {
    var t := new PeriodicTask(now, intervalMs, true, first, true);
    t.SetContext(second);
    var fired := t.Poll(now);
    log := t.firings;
  }

  /**
   * Polling again at the same instant never fires a second time, under the
   * strict policy and, for intervals up to 2^31, under coalescing: missed
   * periods are absorbed, not replayed by further polls.
   */
  method RepeatedPollsAtOneInstant(t0: u32, intervalMs: u32, delay: u32, coalesce: bool, now: u32, n: nat)
    returns (count: nat)
    requires !coalesce || ClampInterval(intervalMs) as int <= HALF
    ensures count == if n > 0 && Due(now, Add32(t0, delay)) then 1 else 0
  {
    var t := new PeriodicTask(t0, intervalMs, true, 0, true);
    t.SetPhase(t0, delay);
    t.SetCoalesceOverdue(coalesce);
    count := 0;
    var i := 0;
    while i < n
      invariant i <= n
      invariant t.Valid() && t.enabled && t.hasCallback
      invariant t.coalesceOverdue == coalesce && t.interval == ClampInterval(intervalMs)
      invariant i == 0 ==> t.nextDue == Add32(t0, delay)
      invariant i > 0 ==> !Due(now, t.nextDue)
      invariant count == if i > 0 && Due(now, Add32(t0, delay)) then 1 else 0
    {
      var fired := t.Poll(now);
      if fired {
        count := count + 1;
      }
      i := i + 1;
    }
  }
}
