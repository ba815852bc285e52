# PeriodicTask in Dafny

This project models `PeriodicTask` (src/PeriodicTask.h). It is a cooperative,
single-threaded periodic scheduler. The host loop polls it with a 32-bit
millisecond timestamp. The task decides whether it is due, fires its
callback at most once per poll, and reschedules its next due time under one
of two policies:

- coalescing: one interval after the poll time;
- strict catch-up: the original grid, by adding the interval until the task is no longer due.

It also has the state transitions start, stop, enable, setInterval, setPhase
and setContext, plus runOnce, the `due` query and the accessors.

Files:

- `wrap32.dfy` (module `Wrap32`) covers the C++ `uint32_t` arithmetic the class uses. `u32` is a newtype over `0 .. 2^32-1`. `Add32` and `Sub32` wrap modulo 2^32. `ToInt32` is the `(int32_t)` reinterpretation.
- `periodic_task.dfy` (module `PeriodicTasks`) holds the due test `Due`, which models `_due`.
  - The strict catch-up is described by `AdvanceBy` (n executions of `_nextDue += _interval`), `CatchUpSteps` (how many the loop performs) and `StrictNext` (where it ends), with lemmas about them.
  - `CatchUp` is the catch-up loop.
  - The class `PeriodicTask<Ctx>` has the fields `interval`, `nextDue`, `enabled`, `coalesceOverdue` and `ctx`. Its methods update these fields in place.
  - The callback is the constant `hasCallback`, because the source has no setter for `_cb`. Each invocation of the callback appends the context it received to the field `firings`.
  - `Valid()` is the invariant `interval >= 1`. Every method keeps it.
- `scenarios.dfy` (module `Scenarios`) holds client methods that build a task and drive it through typical uses. Each one is proved from the operations' contracts alone. The scenarios are: missed periods under both policies, polling across the counter wrap, re-enabling, a phased restart, runOnce on a stopped task, and a context change.

Every call to the clock (`_now()`, `millis()`) becomes an explicit `now: u32` parameter of the operation that reads it.

Three consequences of the code are easy to miss:

- `enable(true)` sets `_nextDue = now` (src/PeriodicTask.h:91), and `_due` counts a zero difference as due (src/PeriodicTask.h:161). So a poll at the same `now` fires exactly once, and it replays no backlog. `Scenarios.ReenableFiresOnce` proves this.
- After a firing, a second poll at the same instant never fires: the strict loop (src/PeriodicTask.h:50-53) has already moved past every missed period, and coalescing (src/PeriodicTask.h:45) moves one interval ahead, which is not due again when the interval is at most 2^31. `Scenarios.RepeatedPollsAtOneInstant` proves this.
- The strict loop keeps adding while the task is due, and `nextDue == now` is due. So the new due time is the first grid point strictly after `now`. `PeriodicTasks.StrictNextWithinOneInterval` proves this: with an interval of at most 2^31, the new due time is 1 to `interval` ms after `now`.

## Model

| member | source | states |
|---|---|---|
| `Wrap32.ToInt32` | src/PeriodicTask.h:161 | The `(int32_t)` cast of a `uint32_t` value lies in the signed 32-bit range. It is non-negative exactly when the unsigned value is below 2^31. |
| `Wrap32.ToInt32Congruent` | src/PeriodicTask.h:161 | The cast value is congruent to the unsigned value modulo 2^32. |
| `Wrap32.ToInt32Unique` | src/PeriodicTask.h:161 | Any signed 32-bit value congruent to `x` modulo 2^32 equals `ToInt32(x)`, so the cast is the two's-complement reading. |
| `Wrap32.Add32IsModular` | src/PeriodicTask.h:45 | The overflow-corrected sum `Add32` is `uint32_t` addition, that is, addition modulo 2^32. |
| `Wrap32.Sub32IsModular` | src/PeriodicTask.h:161 | The underflow-corrected difference `Sub32` is `uint32_t` subtraction, that is, subtraction modulo 2^32. |
| `Wrap32.SubAfterAdd` | src/PeriodicTask.h:45 | Wrapped subtraction undoes wrapped addition: `(a + b) - a == b` on `uint32_t`. |
| `Wrap32.AddAfterSub` | src/PeriodicTask.h:161 | Wrapped addition undoes wrapped subtraction: `b + (a - b) == a` on `uint32_t`. |
| `Wrap32.Add32` | src/PeriodicTask.h:25 | `uint32_t` addition: the result is the true sum, or the sum less 2^32, and it is the true sum exactly when that does not overflow. The same addition is used at lines 45, 52, 75, 103 and 111. |
| `Wrap32.Sub32` | src/PeriodicTask.h:161 | `uint32_t` subtraction: the result is the true difference, or the difference plus 2^32, and it is the true difference exactly when `a >= b`. |
| `PeriodicTasks.ClampInterval` | src/PeriodicTask.h:19 | A zero interval becomes 1 and any other interval is kept, so the stored interval is always at least 1. |
| `PeriodicTasks.Due` | src/PeriodicTask.h:159-162 | `_due(now)`: the task is due exactly when the unsigned difference `now - nextDue` is below 2^31, which is when its `int32_t` reading is not negative. |
| `PeriodicTasks.AdvanceBy` | src/PeriodicTask.h:52 | The due time after `n` executions of `_nextDue += _interval`. Zero executions, or a zero interval, leave it unchanged. `AdvanceByModular` gives its closed form. |
| `PeriodicTasks.StrictNext` | src/PeriodicTask.h:50-53 | Where the strict loop leaves `_nextDue`: the old due time advanced `CatchUpSteps` times. The task is not due there at the same `now`. |
| `PeriodicTasks.DueIffWithinHalfRange` | src/PeriodicTask.h:158-162 | `_due(now)` holds exactly when `(now - nextDue) mod 2^32 < 2^31`. |
| `PeriodicTasks.DueAtNextDue` | src/PeriodicTask.h:159-162 | A task whose next due time equals `now` is due at `now`. |
| `PeriodicTasks.DueAcrossWrap` | src/PeriodicTask.h:158-162 | `nextDue = 2^32 - 2` is due at `now = 5`, although 5 is the smaller value as unsigned. |
| `PeriodicTasks.DelayedDue` | src/PeriodicTask.h:71-76 | A due time of `now + delay` is due at `now` exactly when `delay` is 0 or above 2^31. So `start(false)`, `setInterval` and coalescing postpone the next firing only for intervals of at most 2^31. |
| `PeriodicTasks.AdvanceByShift` | src/PeriodicTask.h:50-53 | Starting the additions one interval later gives the same due time as performing one more addition. |
| `PeriodicTasks.AdvanceByModular` | src/PeriodicTask.h:52 | After `n` executions of `_nextDue += _interval`, the due time is `old + n * interval` modulo 2^32. |
| `PeriodicTasks.CatchUpSteps` | src/PeriodicTask.h:47-53 | For every interval of at least 1 and a due task, the loop performs a count k ≥ 1 of additions. After k additions the task is not due at `now`, and after every smaller positive count it is still due. So k is the least such count. Its definition terminates by a measure on `now - nextDue`, for intervals both below and above 2^31. |
| `PeriodicTasks.CatchUpStepsUnique` | src/PeriodicTask.h:47-53 | Any count with those three properties equals `CatchUpSteps`, so the loop's result is determined. |
| `PeriodicTasks.ForwardStep` | src/PeriodicTask.h:52-53 | For an interval of at most 2^31, one addition keeps a due task due exactly when it was at least one interval late. In that case it reduces the lateness by exactly one interval. |
| `PeriodicTasks.CatchUpStepsForward` | src/PeriodicTask.h:47-53 | For an interval of at most 2^31, the count k satisfies `(k - 1) * interval <= lateness < k * interval`. The loop therefore adds the smallest multiple of the interval that exceeds the lateness. |
| `PeriodicTasks.StrictNextWithinOneInterval` | src/PeriodicTask.h:47-53 | For an interval of at most 2^31, the strict catch-up lands 1 to `interval` ms after `now`. That is the first grid point strictly after `now`. |
| `PeriodicTasks.CatchUp` | src/PeriodicTask.h:47-53 | The do/while loop terminates for every interval, bounded by the ghost count `CatchUpSteps`. It returns the old due time advanced by exactly `CatchUpSteps` intervals, and the task is not due there. |
| `PeriodicTasks.PeriodicTask.Valid` | src/PeriodicTask.h:19 | The class invariant: the stored interval is never 0, so it is a fixed point of the clamp applied at lines 19 and 99-100. Every method keeps it. |
| `PeriodicTasks.PeriodicTask.constructor` | src/PeriodicTask.h:18-26 | The constructor stores the clamped interval, the callback and the context. It enables the task, selects the strict policy, sets `nextDue` to `now` or to `now + interval` by `startNow`, and starts with no firings. |
| `PeriodicTasks.PeriodicTask.Invoke` | src/PeriodicTask.h:164-170 | If there is a callback, it is invoked once with the context read before the call. Otherwise nothing happens. |
| `PeriodicTasks.PeriodicTask.Poll` | src/PeriodicTask.h:35-58 | `Poll` fires exactly when the task is enabled, has a callback and is due. On a fire it logs one firing with the pre-call context and reschedules: to `now + interval` when coalescing, or to `StrictNext` otherwise, which is not due again. When it does not fire, nothing changes. Interval, enabled, policy and context never change. |
| `PeriodicTasks.PeriodicTask.Tick` | src/PeriodicTask.h:63-66 | `Tick` is a poll at the given clock reading, with the same outcome. |
| `PeriodicTasks.PeriodicTask.Start` | src/PeriodicTask.h:71-76 | `Start` enables the task and sets `nextDue` to `now` or to `now + interval` by `immediate`. Nothing else changes. |
| `PeriodicTasks.PeriodicTask.Stop` | src/PeriodicTask.h:81 | `Stop` disables the task and keeps `nextDue` and every other field. |
| `PeriodicTasks.PeriodicTask.Enable` | src/PeriodicTask.h:87-92 | `Enable` sets the flag. Turning it on sets `nextDue = now`, and turning it off keeps `nextDue`. |
| `PeriodicTasks.PeriodicTask.SetInterval` | src/PeriodicTask.h:97-104 | `SetInterval` stores the clamped interval. If `reschedule` is true it sets `nextDue = now + interval`; otherwise it leaves `nextDue` unchanged. |
| `PeriodicTasks.PeriodicTask.SetPhase` | src/PeriodicTask.h:109-112 | `SetPhase` sets `nextDue = now + delay`, with the delay not clamped. Nothing else changes. |
| `PeriodicTasks.PeriodicTask.SetContext` | src/PeriodicTask.h:117 | `SetContext` replaces the context and leaves the schedule, the interval and the flags unchanged. |
| `PeriodicTasks.PeriodicTask.RunOnce` | src/PeriodicTask.h:122-126 | `RunOnce` invokes the callback, if there is one, with the current context, even while disabled. It never touches `nextDue`, `enabled` or `interval`. |
| `PeriodicTasks.PeriodicTask.IsDue` | src/PeriodicTask.h:131-136 | `due()` holds exactly when the task is enabled and `(now - nextDue) mod 2^32 < 2^31`. |
| `PeriodicTasks.PeriodicTask.GetInterval` | src/PeriodicTask.h:138 | `GetInterval` returns the interval, which is at least 1. |
| `PeriodicTasks.PeriodicTask.GetNextDue` | src/PeriodicTask.h:139 | `GetNextDue` returns the next due time. |
| `PeriodicTasks.PeriodicTask.GetEnabled` | src/PeriodicTask.h:140 | `GetEnabled` returns the enabled flag. |
| `PeriodicTasks.PeriodicTask.SetCoalesceOverdue` | src/PeriodicTask.h:142 | `SetCoalesceOverdue` sets the policy flag and changes nothing else. |
| `PeriodicTasks.PeriodicTask.GetCoalesceOverdue` | src/PeriodicTask.h:143 | `GetCoalesceOverdue` returns the policy flag. |
| `Scenarios.FirstPollFires` | src/PeriodicTask.h:18-26 | A task constructed with `startNow` fires once at its construction time, with its context. |
| `Scenarios.NoCallbackNeverFires` | src/PeriodicTask.h:37-38 | A task without a callback never fires. |
| `Scenarios.PollAcrossWrap` | src/PeriodicTask.h:158-162 | A task due at `2^32 - 2` fires when polled at 5, after the counter wraps. |
| `Scenarios.CoalesceMissedPeriods` | src/PeriodicTask.h:43-46 | With interval 100 and coalescing, one poll 250 ms late fires once. The next due time becomes poll time + 100, and a second poll at that time does not fire. |
| `Scenarios.StrictMissedPeriods` | src/PeriodicTask.h:47-53 | With interval 100 and the strict policy, one poll 250 ms late fires once. The next due time stays on the grid, at the start time + 300, and a second poll at that time does not fire. |
| `Scenarios.ReenableFiresOnce` | src/PeriodicTask.h:87-92 | After any time stopped, `enable(true)` followed by a poll at the same `now` fires exactly once, and a second poll does not fire. |
| `Scenarios.StopThenPhasedStart` | src/PeriodicTask.h:71-76 | After `stop` then `start(false)`, a poll at the restart time does not fire when the clamped interval is at most 2^31. A requested interval of 0 is included. |
| `Scenarios.PhasedStartWithHugeInterval` | src/PeriodicTask.h:71-76 | With an interval above 2^31, `start(false)` is already due at `now`, so the bound in `StopThenPhasedStart` is needed. |
| `Scenarios.RunOnceWhileStopped` | src/PeriodicTask.h:122-126 | `runOnce` on a stopped task invokes the callback and leaves `enabled`, `nextDue` and `interval` as they were. |
| `Scenarios.ContextReachesFiring` | src/PeriodicTask.h:117 | After `setContext`, the next firing receives the new context. |
| `Scenarios.RepeatedPollsAtOneInstant` | src/PeriodicTask.h:35-58 | Any number of polls at one instant fire at most once. This holds under the strict policy, and under coalescing when the interval is at most 2^31. They fire once exactly when the task was due at that instant. |

## Left out

- The Arduino clock: `millis()`, `#include <Arduino.h>` and `_now()` (src/PeriodicTask.h:3, 153-156) are a foreign call. Every operation that reads the clock takes the reading as a `now` parameter, so `tick()` is a poll at that reading.
- What the callback does: a firing is one entry, the context passed, in the log `firings`. Side effects of the callback are not modelled, including a callback that mutates the task while it runs. The local copies in `_invoke` are kept in `Invoke`.
- Function-pointer and `void*` identity: the callback is a presence flag fixed at construction, because there is no setter. The context is an opaque value of the type parameter `Ctx`.
- Default arguments (`ctx = nullptr`, `startNow = true`, `immediate = true`, `on = true`, `reschedule = true`): every parameter is explicit.
- The strict catch-up loop of `poll` runs in `CatchUp` on a local copy of `_nextDue`, and the result is written back once. Without re-entrant callbacks, which are left out as above, no step can observe the difference.
- The `(int32_t)` cast of a value of 2^31 or more (src/PeriodicTask.h:161) is implementation-defined before C++20. `Wrap32.ToInt32` fixes it as two's complement, which is what GCC and the AVR and ARM compilers do and what C++20 requires.
- Scheduling across several tasks: the repository has no dispatcher, so there is none to model.
