// The periodic task of src/PeriodicTask.h: a cooperative, single-threaded
// scheduler that is polled with a 32-bit millisecond timestamp, fires its
// callback at most once per poll, and reschedules itself either relative to
// the poll time (coalescing) or on its original grid (strict catch-up).
module PeriodicTasks {
  import opened Wrap32

  // ---------------------------------------------------------------------
  // The due test and the arithmetic of the schedule
  // ---------------------------------------------------------------------

  /**
   * `_due`: the task is due at `now` when the wrapped difference
   * `now - nextDue`, read as a signed 32-bit value, is not negative.
   */
  predicate Due(now: u32, nextDue: u32)
    ensures Due(now, nextDue) <==> Sub32(now, nextDue) as int < HALF
  {
    ToInt32(Sub32(now, nextDue)) >= 0
  }

  /** `_interval ? _interval : 1`: a zero interval becomes one. */
  function ClampInterval(ms: u32): (r: u32)
    ensures r >= 1
    ensures ms == 0 ==> r == 1
    ensures ms != 0 ==> r == ms
  {
    if ms == 0 then 1 else ms
  }

  /** `nextDue` after `n` executions of `_nextDue += _interval`. */
  function AdvanceBy(base: u32, interval: u32, n: nat): (r: u32)
    ensures n == 0 || interval == 0 ==> r == base
  {
    if n == 0 then base else Add32(AdvanceBy(base, interval, n - 1), interval)
  }

  /**
   * The termination measure of the strict catch-up loop.  While the task is
   * due, an interval of at most 2^31 moves `nextDue` toward `now`, so the
   * distance `now - nextDue` shrinks; a larger interval moves it backward
   * by `2^32 - interval`, so the distance grows toward 2^31.
   */
  function CatchUpMeasure(now: u32, nextDue: u32, interval: u32): nat
  {
    var d := Sub32(now, nextDue) as int;
    if d >= HALF then 0
    else if interval as int <= HALF then d + 1
    else HALF - d
  }

  /** Starting one interval later is the same as adding one more interval. */
  lemma {:induction false} AdvanceByShift(base: u32, interval: u32, n: nat)
    ensures AdvanceBy(Add32(base, interval), interval, n) == AdvanceBy(base, interval, n + 1)
  {
    if n > 0 {
      AdvanceByShift(base, interval, n - 1);
    }
  }

  /**
   * How many times the strict catch-up loop of `poll` runs `_nextDue +=
   * _interval`, for every interval: at least once, the task is not due at
   * `now` after that many additions, and it is still due after every
   * smaller positive number of them, so this is the least such count.
   */
  function CatchUpSteps(now: u32, nextDue: u32, interval: u32): (k: nat)
    requires interval >= 1 && Due(now, nextDue)
    ensures k >= 1
    ensures !Due(now, AdvanceBy(nextDue, interval, k))
    ensures forall j: nat :: 1 <= j < k ==> Due(now, AdvanceBy(nextDue, interval, j))
    decreases CatchUpMeasure(now, nextDue, interval)
  {
    var next := Add32(nextDue, interval);
    if Due(now, next) then
      var k' := CatchUpSteps(now, next, interval);
      AdvanceByShift(nextDue, interval, k');
      CatchUpShiftedDue(now, nextDue, interval, k');
      1 + k'
    else
      1
  }

  /** Where the strict catch-up loop leaves `nextDue`. */
  function StrictNext(now: u32, nextDue: u32, interval: u32): (r: u32)
    requires interval >= 1 && Due(now, nextDue)
    ensures !Due(now, r)
  {
    AdvanceBy(nextDue, interval, CatchUpSteps(now, nextDue, interval))
  }

  // ---------------------------------------------------------------------
  // Properties of the due test
  // ---------------------------------------------------------------------

  /**
   * The signed-difference test is a half-range test on the unsigned
   * difference: due exactly when `(now - nextDue) mod 2^32 < 2^31`.
   */
  lemma DueIffWithinHalfRange(now: u32, nextDue: u32)
    ensures Due(now, nextDue) <==> (now as int - nextDue as int) % MODULUS < HALF
  {
  }

  /** A task whose `nextDue` is `now` is due at `now`. */
  lemma DueAtNextDue(now: u32)
    ensures Due(now, now)
  {
  }

  /** Due across the wrap: `nextDue = 2^32 - 2` is due at `now = 5`, though 5 < 2^32 - 2. */
  lemma DueAcrossWrap()
    ensures Due(5, 0xFFFF_FFFE)
    ensures 5 < 0xFFFF_FFFE
  {
  }

  /**
   * A deadline `delay` ahead of `now` is due at `now` exactly when the delay
   * is zero or exceeds 2^31: scheduling `now + delay` postpones the next
   * firing only for `1 <= delay <= 2^31`.
   */
  lemma DelayedDue(now: u32, delay: u32)
    ensures Due(now, Add32(now, delay)) <==> delay == 0 || delay as int > HALF
  {
  }

  // ---------------------------------------------------------------------
  // Properties of the strict catch-up
  // ---------------------------------------------------------------------

  /**
   * If the task is due after each of the first `k` additions counted from
   * one interval later, it is due after each of the first `k + 1`
   * additions from the original due time.
   */
  lemma CatchUpShiftedDue(now: u32, nextDue: u32, interval: u32, k: nat)
    requires Due(now, Add32(nextDue, interval))
    requires forall j: nat :: 1 <= j < k ==> Due(now, AdvanceBy(Add32(nextDue, interval), interval, j))
    ensures forall j: nat :: 1 <= j < k + 1 ==> Due(now, AdvanceBy(nextDue, interval, j))
  {
    forall j: nat | 1 <= j < k + 1
      ensures Due(now, AdvanceBy(nextDue, interval, j))
    {
      if j > 1 {
        AdvanceByShift(nextDue, interval, j - 1);
      }
    }
  }

  /** The catch-up count is the only count with its three properties. */
  lemma CatchUpStepsUnique(now: u32, nextDue: u32, interval: u32, k: nat)
    requires interval >= 1 && Due(now, nextDue)
    requires k >= 1 && !Due(now, AdvanceBy(nextDue, interval, k))
    requires forall j: nat :: 1 <= j < k ==> Due(now, AdvanceBy(nextDue, interval, j))
    ensures k == CatchUpSteps(now, nextDue, interval)
  {
  }

  /** `k` additions land on `nextDue + k * interval` modulo 2^32. */
  lemma {:induction false} AdvanceByModular(base: u32, interval: u32, n: nat)
    ensures AdvanceBy(base, interval, n) as int == (base as int + n * interval as int) % MODULUS
  {
    if n > 0 {
      var prev := AdvanceBy(base, interval, n - 1);
      AdvanceByModular(base, interval, n - 1);
      Add32IsModular(prev, interval);
      MulSucc(n - 1, interval as int);
      ModStep(base as int, (n - 1) * interval as int, interval as int, prev as int);
    }
  }

  /** If `prev` is `base + p` reduced, then `prev + i` reduces like `base + p + i`. */
  lemma ModStep(base: int, p: int, i: int, prev: int)
    requires prev == (base + p) % MODULUS
    ensures (prev + i) % MODULUS == (base + p + i) % MODULUS
  {
    ModAddAbsorb(base + p, i);
  }

  /**
   * For an interval of at most 2^31 the loop runs `k` times where `k` is the
   * smallest count with `k * interval` beyond the lateness `now - nextDue`:
   * the new due time is the old one plus the smallest multiple of the
   * interval that exceeds the lateness.
   */
  lemma {:induction false} CatchUpStepsForward(now: u32, nextDue: u32, interval: u32)
    requires 1 <= interval as int <= HALF && Due(now, nextDue)
    ensures var k := CatchUpSteps(now, nextDue, interval);
      (k - 1) * interval as int <= Sub32(now, nextDue) as int < k * interval as int
    decreases CatchUpMeasure(now, nextDue, interval)
  {
    var next := Add32(nextDue, interval);
    ForwardStep(now, nextDue, interval);
    if Due(now, next) {
      CatchUpStepsForward(now, next, interval);
      var k' := CatchUpSteps(now, next, interval);
      assert CatchUpSteps(now, nextDue, interval) == k' + 1;
      MulSucc(k' - 1, interval as int);
      MulSucc(k', interval as int);
    } else {
      assert CatchUpSteps(now, nextDue, interval) == 1;
    }
  }

  /**
   * For an interval of at most 2^31, one addition to a due `nextDue` either
   * leaves it due, `interval` closer to `now`, or makes it not due, which
   * happens exactly when the lateness was below one interval.
   */
  lemma ForwardStep(now: u32, nextDue: u32, interval: u32)
    requires 1 <= interval as int <= HALF && Due(now, nextDue)
    ensures Due(now, Add32(nextDue, interval)) <==> Sub32(now, nextDue) >= interval
    ensures Due(now, Add32(nextDue, interval)) ==>
      Sub32(now, Add32(nextDue, interval)) as int == Sub32(now, nextDue) as int - interval as int
  {
  }

  /** `(k + 1) * i == k * i + i`. */
  lemma MulSucc(k: int, i: int)
    ensures (k + 1) * i == k * i + i
  {
  }

  /**
   * For an interval of at most 2^31 the strict catch-up lands on the first
   * grid point strictly after `now`: the time left until it is between one
   * millisecond and one interval.
   */
  lemma StrictNextWithinOneInterval(now: u32, nextDue: u32, interval: u32)
    requires 1 <= interval as int <= HALF && Due(now, nextDue)
    ensures 1 <= Sub32(StrictNext(now, nextDue, interval), now) as int <= interval as int
  {
    var k := CatchUpSteps(now, nextDue, interval);
    var prev := AdvanceBy(nextDue, interval, k - 1);
    assert Due(now, prev);
    assert StrictNext(now, nextDue, interval) == Add32(prev, interval);
  }

  /**
   * The strict catch-up loop of `poll`: adds `interval` to `nextDue` at
   * least once and until the task is no longer due at `now`.  It
   * terminates for every interval; the ghost count `CatchUpSteps` bounds it.
   */
  method CatchUp(now: u32, nextDue: u32, interval: u32) returns (next: u32)
    requires interval >= 1 && Due(now, nextDue)
    ensures next == StrictNext(now, nextDue, interval)
    ensures !Due(now, next)
  {
    ghost var k := CatchUpSteps(now, nextDue, interval);
    ghost var j: nat := 1;
    next := Add32(nextDue, interval);
    while Due(now, next)
      invariant 1 <= j <= k
      invariant next == AdvanceBy(nextDue, interval, j)
      decreases k - j
    {
      next := Add32(next, interval);
      j := j + 1;
    }
  }

  // ---------------------------------------------------------------------
  // The task object
  // ---------------------------------------------------------------------

  /**
   * `PeriodicTask`. The callback is represented by whether it is present
   * (`hasCallback`), the opaque context by a value of type `Ctx`, and every
   * invocation of the callback by an entry in the log `firings`
   * holding the context it was called with.
   */
  class PeriodicTask<Ctx> {
    var interval: u32
    const hasCallback: bool
    var ctx: Ctx
    var nextDue: u32
    var enabled: bool
    var coalesceOverdue: bool
    var firings: seq<Ctx>

    /** The interval is never zero. */
    ghost predicate Valid()
      reads this
      ensures Valid() ==> ClampInterval(interval) == interval
    {
      interval >= 1
    }

    /** The constructor; `now` is the clock reading it takes. */
    constructor (now: u32, intervalMs: u32, hasCb: bool, context: Ctx, startNow: bool)
      ensures Valid()
      ensures interval == ClampInterval(intervalMs)
      ensures hasCallback == hasCb && ctx == context
      ensures enabled && !coalesceOverdue
      ensures nextDue == if startNow then now else Add32(now, interval)
      ensures firings == []
    {
      interval := ClampInterval(intervalMs);
      hasCallback := hasCb;
      ctx := context;
      enabled := true;
      coalesceOverdue := false;
      nextDue := if startNow then now else Add32(now, ClampInterval(intervalMs));
      firings := [];
    }

    /**
     * `_invoke`: calls the callback, if there is one, with the context read
     * before the call.
     */
    method Invoke()
      modifies this`firings
      ensures firings == old(firings) + if hasCallback then [ctx] else []
    {
      var cb := hasCallback;
      var c := ctx;
      if cb {
        firings := firings + [c];
      }
    }

    /**
     * `poll`: fires once when enabled, with a callback, and due; then
     * reschedules by the coalescing or the strict policy.  Otherwise
     * nothing changes.
     */
    method Poll(now: u32) returns (fired: bool)
      requires Valid()
      modifies this
      ensures Valid()
      ensures fired <==> old(enabled) && hasCallback && Due(now, old(nextDue))
      ensures interval == old(interval) && enabled == old(enabled)
      ensures coalesceOverdue == old(coalesceOverdue) && ctx == old(ctx)
      ensures firings == old(firings) + if fired then [old(ctx)] else []
      ensures !fired ==> nextDue == old(nextDue)
      ensures fired && coalesceOverdue ==> nextDue == Add32(now, interval)
      ensures fired && !coalesceOverdue ==> nextDue == StrictNext(now, old(nextDue), interval)
      ensures fired && !coalesceOverdue ==> !Due(now, nextDue)
      ensures fired && coalesceOverdue && interval as int <= HALF ==> !Due(now, nextDue)
    {
      if !enabled || !hasCallback {
        return false;
      }
      if Due(now, nextDue) {
        Invoke();
        if coalesceOverdue {
          nextDue := Add32(now, interval);
          DelayedDue(now, interval);
        } else {
          nextDue := CatchUp(now, nextDue, interval);
        }
        return true;
      }
      return false;
    }

    /** `tick`: a poll at the clock reading `now`. */
    method Tick(now: u32) returns (fired: bool)
      requires Valid()
      modifies this
      ensures Valid()
      ensures fired <==> old(enabled) && hasCallback && Due(now, old(nextDue))
      ensures interval == old(interval) && enabled == old(enabled)
      ensures coalesceOverdue == old(coalesceOverdue) && ctx == old(ctx)
      ensures firings == old(firings) + if fired then [old(ctx)] else []
      ensures !fired ==> nextDue == old(nextDue)
      ensures fired && coalesceOverdue ==> nextDue == Add32(now, interval)
      ensures fired && !coalesceOverdue ==> nextDue == StrictNext(now, old(nextDue), interval)
      ensures fired && !coalesceOverdue ==> !Due(now, nextDue)
      ensures fired && coalesceOverdue && interval as int <= HALF ==> !Due(now, nextDue)
    {
      fired := Poll(now);
    }

    /** `start`: enables, and schedules the next firing now or one interval ahead. */
    method Start(now: u32, immediate: bool)
      requires Valid()
      modifies this
      ensures Valid()
      ensures enabled
      ensures nextDue == if immediate then now else Add32(now, interval)
      ensures interval == old(interval) && coalesceOverdue == old(coalesceOverdue)
      ensures ctx == old(ctx) && firings == old(firings)
    {
      enabled := true;
      nextDue := if immediate then now else Add32(now, interval);
    }

    /** `stop`: disables and keeps the schedule. */
    method Stop()
      requires Valid()
      modifies this
      ensures Valid()
      ensures !enabled
      ensures nextDue == old(nextDue) && interval == old(interval)
      ensures coalesceOverdue == old(coalesceOverdue)
      ensures ctx == old(ctx) && firings == old(firings)
    {
      enabled := false;
    }

    /** `enable`: sets the flag; turning it on reschedules to `now`. */
    method Enable(now: u32, on: bool)
      requires Valid()
      modifies this
      ensures Valid()
      ensures enabled == on
      ensures nextDue == if on then now else old(nextDue)
      ensures interval == old(interval) && coalesceOverdue == old(coalesceOverdue)
      ensures ctx == old(ctx) && firings == old(firings)
    {
      enabled := on;
      if on {
        nextDue := now;
      }
    }

    /** `setInterval`: stores the clamped interval and optionally reschedules from `now`. */
    method SetInterval(now: u32, intervalMs: u32, reschedule: bool)
      requires Valid()
      modifies this
      ensures Valid()
      ensures interval == ClampInterval(intervalMs)
      ensures nextDue == if reschedule then Add32(now, interval) else old(nextDue)
      ensures enabled == old(enabled) && coalesceOverdue == old(coalesceOverdue)
      ensures ctx == old(ctx) && firings == old(firings)
    {
      var ms := intervalMs;
      if ms == 0 {
        ms := 1;
      }
      interval := ms;
      if reschedule {
        nextDue := Add32(now, interval);
      }
    }

    /** `setPhase`: the next firing is `delayMs` after `now`. */
    method SetPhase(now: u32, delayMs: u32)
      requires Valid()
      modifies this
      ensures Valid()
      ensures nextDue == Add32(now, delayMs)
      ensures interval == old(interval) && enabled == old(enabled)
      ensures coalesceOverdue == old(coalesceOverdue)
      ensures ctx == old(ctx) && firings == old(firings)
    {
      nextDue := Add32(now, delayMs);
    }

    /** `setContext`: replaces the context later firings receive. */
    method SetContext(context: Ctx)
      requires Valid()
      modifies this
      ensures Valid()
      ensures ctx == context
      ensures nextDue == old(nextDue) && interval == old(interval) && enabled == old(enabled)
      ensures coalesceOverdue == old(coalesceOverdue) && firings == old(firings)
    {
      ctx := context;
    }

    /** `runOnce`: invokes the callback, if any, without touching the schedule. */
    method RunOnce()
      requires Valid()
      modifies this
      ensures Valid()
      ensures firings == old(firings) + if hasCallback then [ctx] else []
      ensures nextDue == old(nextDue) && interval == old(interval) && enabled == old(enabled)
      ensures coalesceOverdue == old(coalesceOverdue) && ctx == old(ctx)
    {
      if hasCallback {
        firings := firings + [ctx];
      }
    }

    /** `due`: enabled and due at the clock reading `now`; changes nothing. */
    function IsDue(now: u32): (b: bool)
      reads this
      ensures b <==> enabled && (now as int - nextDue as int) % MODULUS < HALF
    {
      enabled && Due(now, nextDue)
    }

    /** `getInterval`. */
    function GetInterval(): (r: u32)
      reads this
      requires Valid()
      ensures r >= 1 && r == interval
    {
      interval
    }

    /** `getNextDue`. */
    function GetNextDue(): (r: u32)
      reads this
      ensures r == nextDue
    {
      nextDue
    }

    /** `getEnabled`. */
    function GetEnabled(): (r: bool)
      reads this
      ensures r == enabled
    {
      enabled
    }

    /** `setCoalesceOverdue`: selects the rescheduling policy and nothing else. */
    method SetCoalesceOverdue(on: bool)
      requires Valid()
      modifies this
      ensures Valid()
      ensures coalesceOverdue == on
      ensures nextDue == old(nextDue) && interval == old(interval) && enabled == old(enabled)
      ensures ctx == old(ctx) && firings == old(firings)
    {
      coalesceOverdue := on;
    }

    /** `getCoalesceOverdue`. */
    function GetCoalesceOverdue(): (r: bool)
      reads this
      ensures r == coalesceOverdue
    {
      coalesceOverdue
    }
  }
}
